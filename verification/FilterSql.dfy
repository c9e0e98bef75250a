/** SQL conditions: their text as tokens, how it is read, and what it means on a row. */
module FilterSql {
  import opened FilterTags
  import opened Texts

  // ----- Three-valued logic -----

  datatype Truth = True | False | Unknown

  function TruthOf(b: bool): Truth { if b then True else False }

  function Not(a: Truth): Truth {
    match a
    case True => False
    case False => True
    case Unknown => Unknown
  }

  function And(a: Truth, b: Truth): Truth {
    if a.False? || b.False? then False else if a.True? && b.True? then True else Unknown
  }

  function Or(a: Truth, b: Truth): Truth {
    if a.True? || b.True? then True else if a.False? && b.False? then False else Unknown
  }

  /** False, unknown and true in this order: AND takes the least of its operands, OR the greatest, NOT turns around. */
  lemma Kleene(a: Truth, b: Truth)
    ensures var rank := map[False := 0, Unknown := 1, True := 2];
      && rank[And(a, b)] == (if rank[a] < rank[b] then rank[a] else rank[b])
      && rank[Or(a, b)] == (if rank[a] < rank[b] then rank[b] else rank[a])
      && rank[Not(a)] == 2 - rank[a]
  {
  }

  // ----- Text -----

  datatype Dialect = SQLite | MySQL | Postgres

  datatype Value = Null | Int(i: int) | Str(s: string) | Bool(b: bool)

  datatype Operator = Eq | Neq | Lt | Lte | Gt | Gte

  /** The comparisons, tests and calls that hold no connective. Column and list operands are named by their field. */
  datatype Kind =
    | Falsehood                                              // 1 = 0
    | IsTrue(field: string)                                  // column IS TRUE
    | JsonTrue(field: string)                                // a JSON boolean is true
    | JsonCompare(field: string, op: Operator, value: bool)  // a JSON boolean against a constant
    | IsNull(field: string)
    | IsNotNull(field: string)
    | Compare(field: string, op: Operator)                   // column op ?
    | InList(field: string)                                  // column IN (?, ..)
    | TextLike(field: string)                                // column LIKE ? up to case
    | ListCount(field: string, op: Operator)                 // length of the list op ?
    | ListLike(field: string)                                // JSON text of the list LIKE ?
    | ListHas(field: string)                                 // JSON list contains the JSON string ?
    | ListPresent(field: string)                             // list IS NOT NULL
    | ListNotEmpty(field: string)                            // list is not []

  /** A token of a condition; `P` is what stands in the place of a parameter. */
  datatype Token<P> = LeftParen | RightParen | AndWord | OrWord | NotWord | Atom(kind: Kind, params: seq<P>)

  datatype Sql<P> = Leaf(kind: Kind, params: seq<P>) | Both(l: Sql<P>, r: Sql<P>) | Either(l: Sql<P>, r: Sql<P>)
                  | Negation(e: Sql<P>)

  datatype Parsed<P> = Fail | Read(e: Sql<P>, rest: seq<Token<P>>)

  // ----- Reading text: NOT binds tighter than AND, AND tighter than OR -----

  /** An empty IN list is an error but for SQLite. */
  predicate WellFormedAtom<P>(d: Dialect, kind: Kind, params: seq<P>) {
    kind.InList? && params == [] ==> d == SQLite
  }

  function ParseUnary<P>(d: Dialect, ts: seq<Token<P>>): (r: Parsed<P>)
    ensures r.Read? ==> |r.rest| < |ts|
    decreases |ts|, 1
  {
    if ts == [] then Fail
    else match ts[0]
      case Atom(kind, params) => if WellFormedAtom(d, kind, params) then Read(Leaf(kind, params), ts[1..]) else Fail
      case NotWord =>
        (match ParseUnary(d, ts[1..])
         case Read(e, rest) => Read(Negation(e), rest)
         case Fail => Fail)
      case LeftParen =>
        (match ParseOr(d, ts[1..])
         case Read(e, rest) => if rest != [] && rest[0] == RightParen then Read(e, rest[1..]) else Fail
         case Fail => Fail)
      case _ => Fail
  }

  function ParseAnd<P>(d: Dialect, ts: seq<Token<P>>): (r: Parsed<P>)
    ensures r.Read? ==> |r.rest| < |ts|
    decreases |ts|, 2
  {
    match ParseUnary(d, ts)
    case Read(e, rest) => AndTail(d, e, rest)
    case Fail => Fail
  }

  function AndTail<P>(d: Dialect, e: Sql<P>, ts: seq<Token<P>>): (r: Parsed<P>)
    ensures r.Read? ==> |r.rest| <= |ts|
    decreases |ts|, 0
  {
    if ts == [] || ts[0] != AndWord then Read(e, ts)
    else match ParseUnary(d, ts[1..])
      case Read(f, rest) => AndTail(d, Both(e, f), rest)
      case Fail => Fail
  }

  function ParseOr<P>(d: Dialect, ts: seq<Token<P>>): (r: Parsed<P>)
    ensures r.Read? ==> |r.rest| < |ts|
    decreases |ts|, 3
  {
    match ParseAnd(d, ts)
    case Read(e, rest) => OrTail(d, e, rest)
    case Fail => Fail
  }

  function OrTail<P>(d: Dialect, e: Sql<P>, ts: seq<Token<P>>): (r: Parsed<P>)
    ensures r.Read? ==> |r.rest| <= |ts|
    decreases |ts|, 0
  {
    if ts == [] || ts[0] != OrWord then Read(e, ts)
    else match ParseAnd(d, ts[1..])
      case Read(f, rest) => OrTail(d, Either(e, f), rest)
      case Fail => Fail
  }

  function Parse<P>(d: Dialect, ts: seq<Token<P>>): Option<Sql<P>> {
    match ParseOr(d, ts)
    case Read(e, rest) => if rest == [] then Some(e) else None
    case Fail => None
  }

  // ----- Self-contained pieces of text -----

  /** `ts` is read as `e` wherever an operand may stand, whatever follows it. */
  ghost predicate Unit<P(!new)>(d: Dialect, ts: seq<Token<P>>, e: Sql<P>) {
    forall rest :: ParseUnary(d, ts + rest) == Read(e, rest)
  }

  /** `ts` cannot be read where an operand should stand, whatever follows it. */
  ghost predicate Broken<P(!new)>(d: Dialect, ts: seq<Token<P>>) {
    forall rest :: ParseUnary(d, ts + rest) == Fail
  }

  /** The token sequences after which a chain of operands ends. */
  predicate Closes<P>(rest: seq<Token<P>>) {
    rest == [] || rest[0] == RightParen
  }

  lemma UnitAtom<P(!new)>(d: Dialect, kind: Kind, params: seq<P>)
    ensures WellFormedAtom(d, kind, params) ==> Unit(d, [Atom(kind, params)], Leaf(kind, params))
    ensures !WellFormedAtom(d, kind, params) ==> Broken(d, [Atom(kind, params)])
  {
    forall rest: seq<Token<P>>
      ensures ParseUnary(d, [Atom(kind, params)] + rest) ==
        if WellFormedAtom(d, kind, params) then Read(Leaf(kind, params), rest) else Fail
    {
      assert ([Atom(kind, params)] + rest)[1..] == rest;
    }
  }

  // ----- Steps of reading -----

  lemma UnitReads<P(!new)>(d: Dialect, ts: seq<Token<P>>, e: Sql<P>, rest: seq<Token<P>>)
    ensures Unit(d, ts, e) ==> ParseUnary(d, ts + rest) == Read(e, rest)
    ensures Broken(d, ts) ==> ParseUnary(d, ts + rest) == Fail
  {
  }

  lemma AndReads<P>(d: Dialect, ts: seq<Token<P>>)
    ensures var p := ParseUnary(d, ts);
      ParseAnd(d, ts) == if p.Read? then AndTail(d, p.e, p.rest) else Fail
  {
  }

  lemma OrReads<P>(d: Dialect, ts: seq<Token<P>>)
    ensures var p := ParseAnd(d, ts);
      ParseOr(d, ts) == if p.Read? then OrTail(d, p.e, p.rest) else Fail
  {
  }

  lemma AndStep<P>(d: Dialect, e: Sql<P>, after: seq<Token<P>>)
    ensures var p := ParseUnary(d, after);
      AndTail(d, e, [AndWord] + after) == if p.Read? then AndTail(d, Both(e, p.e), p.rest) else Fail
  {
    assert ([AndWord] + after)[1..] == after;
  }

  lemma OrStep<P>(d: Dialect, e: Sql<P>, after: seq<Token<P>>)
    ensures var p := ParseAnd(d, after);
      OrTail(d, e, [OrWord] + after) == if p.Read? then OrTail(d, Either(e, p.e), p.rest) else Fail
  {
    assert ([OrWord] + after)[1..] == after;
  }

  predicate Loose<P>(rest: seq<Token<P>>) { rest == [] || rest[0] != AndWord }

  lemma Stops<P>(d: Dialect, e: Sql<P>, rest: seq<Token<P>>)
    ensures Loose(rest) ==> AndTail(d, e, rest) == Read(e, rest)
    ensures Closes(rest) ==> Loose(rest) && OrTail(d, e, rest) == Read(e, rest)
  {
  }

  lemma Regroup<P>(a: seq<Token<P>>, w: Token<P>, b: seq<Token<P>>, rest: seq<Token<P>>)
    ensures a + [w] + b + rest == a + ([w] + (b + rest))
  {
  }

  // ----- Chains of operands -----

  /** Operands joined by AND that are read as `e`, going on with whatever follows. */
  ghost predicate AndChain<P(!new)>(d: Dialect, ts: seq<Token<P>>, e: Sql<P>) {
    forall rest :: ParseAnd(d, ts + rest) == AndTail(d, e, rest)
  }

  ghost predicate BrokenAnd<P(!new)>(d: Dialect, ts: seq<Token<P>>) {
    forall rest :: ParseAnd(d, ts + rest) == Fail
  }

  /** Operands joined by OR that are read as `e`, going on with whatever follows but an AND. */
  ghost predicate OrChain<P(!new)>(d: Dialect, ts: seq<Token<P>>, e: Sql<P>) {
    forall rest | Loose(rest) :: ParseOr(d, ts + rest) == OrTail(d, e, rest)
  }

  ghost predicate BrokenOr<P(!new)>(d: Dialect, ts: seq<Token<P>>) {
    forall rest :: ParseOr(d, ts + rest) == Fail
  }

  lemma UnitIsChain<P(!new)>(d: Dialect, ts: seq<Token<P>>, e: Sql<P>)
    requires Unit(d, ts, e)
    ensures AndChain(d, ts, e) && OrChain(d, ts, e)
  {
    hide Unit, ParseUnary, ParseAnd, ParseOr, AndTail, OrTail;
    forall rest
      ensures ParseAnd(d, ts + rest) == AndTail(d, e, rest)
      ensures Loose(rest) ==> ParseOr(d, ts + rest) == OrTail(d, e, rest)
    {
      UnitReads(d, ts, e, rest);
      AndReads(d, ts + rest);
      OrReads(d, ts + rest);
      Stops(d, e, rest);
    }
  }

  lemma BrokenIsBroken<P(!new)>(d: Dialect, ts: seq<Token<P>>, e: Sql<P>)
    requires Broken(d, ts)
    ensures BrokenAnd(d, ts) && BrokenOr(d, ts)
  {
    hide Broken, ParseUnary, ParseAnd, ParseOr, AndTail, OrTail;
    forall rest
      ensures ParseAnd(d, ts + rest) == ParseOr(d, ts + rest) == Fail
    {
      UnitReads(d, ts, e, rest);
      AndReads(d, ts + rest);
      OrReads(d, ts + rest);
    }
  }

  lemma AndChainGoesOn<P(!new)>(d: Dialect, a: seq<Token<P>>, ea: Sql<P>, b: seq<Token<P>>, eb: Sql<P>)
    requires AndChain(d, a, ea) && Unit(d, b, eb)
    ensures AndChain(d, a + [AndWord] + b, Both(ea, eb))
  {
    hide Unit, ParseUnary, ParseAnd, ParseOr, AndTail, OrTail;
    forall rest
      ensures ParseAnd(d, a + [AndWord] + b + rest) == AndTail(d, Both(ea, eb), rest)
    {
      Regroup(a, AndWord, b, rest);
      AndStep(d, ea, b + rest);
      UnitReads(d, b, eb, rest);
    }
  }

  lemma AndChainBreaks<P(!new)>(d: Dialect, a: seq<Token<P>>, ea: Sql<P>, b: seq<Token<P>>)
    requires BrokenAnd(d, a) || (AndChain(d, a, ea) && Broken(d, b))
    ensures BrokenAnd(d, a + [AndWord] + b)
  {
    hide Unit, Broken, ParseUnary, ParseAnd, ParseOr, AndTail, OrTail;
    forall rest
      ensures ParseAnd(d, a + [AndWord] + b + rest) == Fail
    {
      Regroup(a, AndWord, b, rest);
      AndStep(d, ea, b + rest);
      UnitReads(d, b, ea, rest);
    }
  }

  lemma OrChainGoesOn<P(!new)>(d: Dialect, a: seq<Token<P>>, ea: Sql<P>, b: seq<Token<P>>, eb: Sql<P>)
    requires OrChain(d, a, ea) && Unit(d, b, eb)
    ensures OrChain(d, a + [OrWord] + b, Either(ea, eb))
  {
    hide Unit, ParseUnary, ParseAnd, ParseOr, AndTail, OrTail;
    forall rest | Loose(rest)
      ensures ParseOr(d, a + [OrWord] + b + rest) == OrTail(d, Either(ea, eb), rest)
    {
      Regroup(a, OrWord, b, rest);
      OrStep(d, ea, b + rest);
      UnitReads(d, b, eb, rest);
      AndReads(d, b + rest);
      Stops(d, eb, rest);
    }
  }

  lemma OrChainBreaks<P(!new)>(d: Dialect, a: seq<Token<P>>, ea: Sql<P>, b: seq<Token<P>>)
    requires BrokenOr(d, a) || (OrChain(d, a, ea) && Broken(d, b))
    ensures BrokenOr(d, a + [OrWord] + b)
  {
    hide Unit, Broken, ParseUnary, ParseAnd, ParseOr, AndTail, OrTail;
    forall rest
      ensures ParseOr(d, a + [OrWord] + b + rest) == Fail
    {
      Regroup(a, OrWord, b, rest);
      OrStep(d, ea, b + rest);
      UnitReads(d, b, ea, rest);
      AndReads(d, b + rest);
    }
  }

  /** A whole text is read as the chain it is. */
  lemma ParseChain<P(!new)>(d: Dialect, ts: seq<Token<P>>, e: Sql<P>)
    ensures AndChain(d, ts, e) ==> Parse(d, ts) == Some(e)
    ensures BrokenAnd(d, ts) ==> Parse(d, ts) == None
  {
    hide ParseUnary, ParseAnd, ParseOr, AndTail, OrTail;
    assert ts + [] == ts;
    OrReads(d, ts);
    Stops(d, e, []);
  }

  /** AND binds tighter than OR on either side, and NOT tighter than both. */
  lemma Binding<P(!new)>(d: Dialect, a: seq<Token<P>>, ea: Sql<P>, b: seq<Token<P>>, eb: Sql<P>, c: seq<Token<P>>,
                         ec: Sql<P>)
    requires Unit(d, a, ea) && Unit(d, b, eb) && Unit(d, c, ec)
    ensures Parse(d, a + [OrWord] + (b + [AndWord] + c)) == Some(Either(ea, Both(eb, ec)))
    ensures Parse(d, a + [AndWord] + b + [OrWord] + c) == Some(Either(Both(ea, eb), ec))
    ensures Parse(d, [NotWord] + a + [AndWord] + b) == Some(Both(Negation(ea), eb))
  {
    hide Unit, ParseUnary, ParseAnd, ParseOr, AndTail, OrTail;
    UnitIsChain(d, a, ea);
    UnitIsChain(d, b, eb);
    AndChainGoesOn(d, b, eb, c, ec);
    AndChainGoesOn(d, a, ea, b, eb);
    NotReads(d, a);
    UnitIsChain(d, [NotWord] + a, Negation(ea));
    AndChainGoesOn(d, [NotWord] + a, Negation(ea), b, eb);
    ParseChain(d, [NotWord] + a + [AndWord] + b, Both(Negation(ea), eb));
    UnitIsChain(d, c, ec);
    OrAfter(d, a + [AndWord] + b, Both(ea, eb), c, ec);
    OrAfter(d, a, ea, b + [AndWord] + c, Both(eb, ec));
  }

  lemma OrAfter<P(!new)>(d: Dialect, a: seq<Token<P>>, ea: Sql<P>, b: seq<Token<P>>, eb: Sql<P>)
    requires AndChain(d, a, ea) && AndChain(d, b, eb)
    ensures Parse(d, a + [OrWord] + b) == Some(Either(ea, eb))
  {
    hide ParseUnary, ParseAnd, ParseOr, AndTail, OrTail;
    var after := [OrWord] + b;
    assert a + [OrWord] + b == a + after && b + [] == b;
    OrReads(d, a + after);
    Stops(d, ea, after);
    OrStep(d, ea, b);
    Stops(d, eb, []);
    Stops(d, Either(ea, eb), []);
  }

  // ----- Parentheses and negation -----

  function InParens<P>(ts: seq<Token<P>>): seq<Token<P>> { [LeftParen] + ts + [RightParen] }

  function Negated<P>(ts: seq<Token<P>>): seq<Token<P>> { [NotWord] + InParens(ts) }

  lemma ParensRead<P(!new)>(d: Dialect, ts: seq<Token<P>>, e: Sql<P>)
    requires forall rest | Closes(rest) :: ParseOr(d, ts + rest) == Read(e, rest)
    ensures Unit(d, InParens(ts), e)
  {
    forall rest: seq<Token<P>>
      ensures ParseUnary(d, InParens(ts) + rest) == Read(e, rest)
    {
      var after := [RightParen] + rest;
      assert (InParens(ts) + rest)[1..] == ts + after;
      assert Closes(after);
      assert ParseOr(d, ts + after) == Read(e, after);
      assert after[1..] == rest;
    }
  }

  lemma ParensFail<P(!new)>(d: Dialect, ts: seq<Token<P>>)
    requires forall rest | Closes(rest) :: ParseOr(d, ts + rest) == Fail
    ensures Broken(d, InParens(ts))
  {
    forall rest: seq<Token<P>>
      ensures ParseUnary(d, InParens(ts) + rest) == Fail
    {
      var after := [RightParen] + rest;
      assert (InParens(ts) + rest)[1..] == ts + after;
      assert Closes(after);
      assert ParseOr(d, ts + after) == Fail;
    }
  }

  lemma NotReads<P(!new)>(d: Dialect, ts: seq<Token<P>>)
    ensures forall e | Unit(d, ts, e) :: Unit(d, [NotWord] + ts, Negation(e))
    ensures Broken(d, ts) ==> Broken(d, [NotWord] + ts)
  {
    forall rest: seq<Token<P>>
      ensures var p := ParseUnary(d, ts + rest);
        ParseUnary(d, [NotWord] + ts + rest) == if p.Read? then Read(Negation(p.e), p.rest) else Fail
    {
      assert ([NotWord] + ts + rest)[1..] == ts + rest;
    }
  }

  lemma ChainInParens<P(!new)>(d: Dialect, ts: seq<Token<P>>, e: Sql<P>)
    ensures AndChain(d, ts, e) ==> Unit(d, InParens(ts), e)
    ensures OrChain(d, ts, e) ==> Unit(d, InParens(ts), e)
    ensures BrokenAnd(d, ts) || BrokenOr(d, ts) ==> Broken(d, InParens(ts))
  {
    hide Unit, Broken, ParseUnary, ParseAnd, ParseOr, AndTail, OrTail;
    if AndChain(d, ts, e) || OrChain(d, ts, e) {
      forall rest: seq<Token<P>> | Closes(rest)
        ensures ParseOr(d, ts + rest) == Read(e, rest)
      {
        OrReads(d, ts + rest);
        Stops(d, e, rest);
      }
      ParensRead(d, ts, e);
    }
    if BrokenAnd(d, ts) || BrokenOr(d, ts) {
      forall rest: seq<Token<P>> | Closes(rest)
        ensures ParseOr(d, ts + rest) == Fail
      {
        OrReads(d, ts + rest);
      }
      ParensFail(d, ts);
    }
  }

  lemma UnitInParens<P(!new)>(d: Dialect, ts: seq<Token<P>>, e: Sql<P>)
    ensures Unit(d, ts, e) ==> Unit(d, InParens(ts), e)
    ensures Broken(d, ts) ==> Broken(d, InParens(ts))
  {
    hide Unit, Broken;
    if Unit(d, ts, e) {
      UnitIsChain(d, ts, e);
    }
    if Broken(d, ts) {
      BrokenIsBroken(d, ts, e);
    }
    ChainInParens(d, ts, e);
  }

  lemma UnitNegated<P(!new)>(d: Dialect, ts: seq<Token<P>>, e: Sql<P>)
    ensures Unit(d, ts, e) ==> Unit(d, Negated(ts), Negation(e))
    ensures Broken(d, ts) ==> Broken(d, Negated(ts))
  {
    hide Unit, Broken, InParens;
    UnitInParens(d, ts, e);
    NotReads(d, InParens(ts));
  }

  // ----- Conjunctions and disjunctions -----

  function Conjunction<P>(a: seq<Token<P>>, b: seq<Token<P>>): seq<Token<P>> { InParens(a + [AndWord] + b) }

  function Disjunction<P>(a: seq<Token<P>>, b: seq<Token<P>>): seq<Token<P>> { InParens(a + [OrWord] + b) }

  function Conjunction3<P>(a: seq<Token<P>>, b: seq<Token<P>>, c: seq<Token<P>>): seq<Token<P>> {
    InParens(a + [AndWord] + b + [AndWord] + c)
  }

  lemma UnitConjunction<P(!new)>(d: Dialect, a: seq<Token<P>>, ea: Sql<P>, b: seq<Token<P>>, eb: Sql<P>)
    requires Unit(d, a, ea) && Unit(d, b, eb)
    ensures Unit(d, Conjunction(a, b), Both(ea, eb))
  {
    hide Unit, AndChain, OrChain, Broken, InParens;
    UnitIsChain(d, a, ea);
    AndChainGoesOn(d, a, ea, b, eb);
    ChainInParens(d, a + [AndWord] + b, Both(ea, eb));
  }

  lemma UnitDisjunction<P(!new)>(d: Dialect, a: seq<Token<P>>, ea: Sql<P>, b: seq<Token<P>>, eb: Sql<P>)
    requires Unit(d, a, ea) && Unit(d, b, eb)
    ensures Unit(d, Disjunction(a, b), Either(ea, eb))
  {
    hide Unit, AndChain, OrChain, Broken, InParens;
    UnitIsChain(d, a, ea);
    OrChainGoesOn(d, a, ea, b, eb);
    ChainInParens(d, a + [OrWord] + b, Either(ea, eb));
  }

  lemma UnitConjunction3<P(!new)>(d: Dialect, a: seq<Token<P>>, ea: Sql<P>, b: seq<Token<P>>, eb: Sql<P>,
                                  c: seq<Token<P>>, ec: Sql<P>)
    requires Unit(d, a, ea) && Unit(d, b, eb) && Unit(d, c, ec)
    ensures Unit(d, Conjunction3(a, b, c), Both(Both(ea, eb), ec))
  {
    hide Unit, AndChain, OrChain, Broken, InParens;
    UnitIsChain(d, a, ea);
    AndChainGoesOn(d, a, ea, b, eb);
    AndChainGoesOn(d, a + [AndWord] + b, Both(ea, eb), c, ec);
    ChainInParens(d, a + [AndWord] + b + [AndWord] + c, Both(Both(ea, eb), ec));
  }

  lemma BrokenJunction<P(!new)>(d: Dialect, a: seq<Token<P>>, ea: Sql<P>, b: seq<Token<P>>)
    requires Broken(d, a) || (Unit(d, a, ea) && Broken(d, b))
    ensures Broken(d, Conjunction(a, b)) && Broken(d, Disjunction(a, b))
  {
    hide Unit, AndChain, OrChain, Broken, BrokenAnd, BrokenOr, InParens;
    if Broken(d, a) {
      BrokenIsBroken(d, a, ea);
    } else {
      UnitIsChain(d, a, ea);
    }
    AndChainBreaks(d, a, ea, b);
    OrChainBreaks(d, a, ea, b);
    ChainInParens(d, a + [AndWord] + b, ea);
    ChainInParens(d, a + [OrWord] + b, ea);
  }

  // ----- Joining -----

  /** Texts joined by a word; nothing at all for no texts. */
  function Joined<P>(word: Token<P>, texts: seq<seq<Token<P>>>): seq<Token<P>> {
    if texts == [] then []
    else if |texts| == 1 then texts[0]
    else Joined(word, texts[..|texts| - 1]) + [word] + texts[|texts| - 1]
  }

  lemma JoinedSnoc<P>(word: Token<P>, texts: seq<seq<Token<P>>>, t: seq<Token<P>>)
    ensures Joined(word, texts + [t]) == if texts == [] then t else Joined(word, texts) + [word] + t
  {
    assert (texts + [t])[..|texts|] == texts;
  }

  function EitherOf<P>(es: seq<Sql<P>>): Sql<P>
    requires es != []
  {
    if |es| == 1 then es[0] else Either(EitherOf(es[..|es| - 1]), es[|es| - 1])
  }

  lemma {:induction false} JoinedChain<P(!new)>(d: Dialect, texts: seq<seq<Token<P>>>, es: seq<Sql<P>>)
    requires |texts| == |es| > 0 && forall i | 0 <= i < |texts| :: Unit(d, texts[i], es[i])
    ensures OrChain(d, Joined(OrWord, texts), EitherOf(es))
  {
    hide Unit, OrChain, AndChain;
    var n := |texts| - 1;
    if n == 0 {
      UnitIsChain(d, texts[0], es[0]);
    } else {
      JoinedChain(d, texts[..n], es[..n]);
      OrChainGoesOn(d, Joined(OrWord, texts[..n]), EitherOf(es[..n]), texts[n], es[n]);
    }
  }

  lemma UnitJoined<P(!new)>(d: Dialect, texts: seq<seq<Token<P>>>, es: seq<Sql<P>>)
    requires |texts| == |es| > 0 && forall i | 0 <= i < |texts| :: Unit(d, texts[i], es[i])
    ensures Unit(d, InParens(Joined(OrWord, texts)), EitherOf(es))
  {
    hide Unit, OrChain, AndChain, Joined, EitherOf, InParens;
    JoinedChain(d, texts, es);
    ChainInParens(d, Joined(OrWord, texts), EitherOf(es));
  }

  /** The empty parentheses that a search in an empty tag list renders to cannot be read. */
  lemma BrokenEmpty<P(!new)>(d: Dialect)
    ensures Broken<P>(d, InParens([]))
  {
    hide AndTail, OrTail;
    forall rest: seq<Token<P>> | Closes(rest)
      ensures ParseOr(d, [] + rest) == Fail
    {
      assert [] + rest == rest;
      AndReads(d, rest);
      OrReads(d, rest);
    }
    ParensFail<P>(d, []);
  }

  // ----- Meaning -----

  /** How the database compares: characters in LIKE on lists and on columns, the punctuation of its JSON text, and the
      order of strings. */
  datatype Engine = Engine(listFold: Folding, textFold: Folding, separator: string, collate: (string, string) -> int)

  /** A row, seen through the fields of the schema; JSON booleans are left to the database. */
  datatype Row = Row(column: string -> Value, list: string -> Option<seq<string>>, jsonTrue: string -> Truth,
                     jsonCompare: (string, Operator, bool) -> Truth)

  predicate Ordered(op: Operator, c: int) {
    match op
    case Eq => c == 0
    case Neq => c != 0
    case Lt => c < 0
    case Lte => c <= 0
    case Gt => c > 0
    case Gte => c >= 0
  }

  function Number(v: Value): Option<int> {
    match v
    case Int(i) => Some(i)
    case Bool(b) => Some(if b then 1 else 0)
    case _ => None
  }

  function CompareValues(g: Engine, a: Value, op: Operator, b: Value): Truth {
    if a.Str? && b.Str? then TruthOf(Ordered(op, g.collate(a.s, b.s)))
    else if Number(a).Some? && Number(b).Some? then TruthOf(Ordered(op, Number(a).value - Number(b).value))
    else Unknown
  }

  function AnyEqual(g: Engine, a: Value, vs: seq<Value>): Truth {
    if vs == [] then False else Or(CompareValues(g, a, Eq, vs[0]), AnyEqual(g, a, vs[1..]))
  }

  ghost function EvalAtom(g: Engine, r: Row, kind: Kind, params: seq<Value>): Truth {
    match kind
    case Falsehood => False
    case IsTrue(f) => TruthOf(r.column(f) == Bool(true))
    case JsonTrue(f) => r.jsonTrue(f)
    case JsonCompare(f, op, value) => r.jsonCompare(f, op, value)
    case IsNull(f) => TruthOf(r.column(f).Null?)
    case IsNotNull(f) => TruthOf(!r.column(f).Null?)
    case InList(f) => AnyEqual(g, r.column(f), params)
    case ListPresent(f) => TruthOf(r.list(f).Some?)
    case ListNotEmpty(f) => if r.list(f).None? then Unknown else TruthOf(Json(r.list(f).value, g.separator) != "[]")
    case Compare(f, op) => if |params| == 1 then CompareValues(g, r.column(f), op, params[0]) else Unknown
    case TextLike(f) =>
      if |params| == 1 && params[0].Str? && r.column(f).Str? then TruthOf(Like(g.textFold, params[0].s, r.column(f).s))
      else Unknown
    case ListCount(f, op) =>
      if |params| == 1 then CompareValues(g, Int(if r.list(f).None? then 0 else |r.list(f).value|), op, params[0])
      else Unknown
    case ListLike(f) =>
      if |params| == 1 && params[0].Str? && r.list(f).Some?
      then TruthOf(Like(g.listFold, params[0].s, Json(r.list(f).value, g.separator)))
      else Unknown
    case ListHas(f) =>
      if |params| == 1 && params[0].Str? && r.list(f).Some?
      then TruthOf(exists t :: t in r.list(f).value && Quoted(t) == params[0].s)
      else Unknown
  }

  ghost function Eval(g: Engine, r: Row, e: Sql<Value>): Truth {
    match e
    case Leaf(kind, params) => EvalAtom(g, r, kind, params)
    case Both(a, b) => And(Eval(g, r, a), Eval(g, r, b))
    case Either(a, b) => Or(Eval(g, r, a), Eval(g, r, b))
    case Negation(a) => Not(Eval(g, r, a))
  }
}
