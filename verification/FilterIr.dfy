/** The condition trees of filters, the fields they speak of, and their truth on a row. */
module FilterIr {
  import opened FilterSql
  import opened FilterTags
  import opened Texts

  // ----- Trees -----

  datatype Literal = NullLiteral | Number(i: int) | Text(s: string) | Boolean(b: bool)

  datatype ValueExpr =
    | FieldRef(name: string)
    | LiteralValue(lit: Literal)
    | FunctionValue(fn: string, args: seq<ValueExpr>)

  datatype Predicate = Equals(v: string) | HasPrefix(v: string) | HasSuffix(v: string) | HasPart(v: string)

  datatype Connective = AndOf | OrOf

  datatype Condition =
    | Logical(connective: Connective, left: Condition, right: Condition)
    | NotOf(operand: Condition)
    | FieldPredicate(field: string)
    | Comparison(lhs: ValueExpr, op: Operator, rhs: ValueExpr)
    | In(element: ValueExpr, values: seq<ValueExpr>)
    | ElementIn(element: ValueExpr, field: string)
    | Contains(field: string, text: string)
    | Exists(field: string, test: Predicate)
    | Constant(value: bool)
  {
    predicate IsLeaf() { !Logical? && !NotOf? && !Constant? }
  }

  // ----- Schemas -----

  datatype FieldKind = Scalar | BoolColumn | JsonBool | JsonList | VirtualAlias
  datatype FieldType = StringType | IntType | BoolType | TimestampType

  datatype Field = Field(name: string, kind: FieldKind, fieldType: FieldType, aliasFor: string, supportsContains: bool,
                         allowedOps: Option<set<Operator>>)

  type Schema = map<string, Field>

  function ResolveAlias(s: Schema, name: string): Option<Field> {
    if name !in s then None
    else if s[name].kind != VirtualAlias then Some(s[name])
    else if s[name].aliasFor in s then Some(s[s[name].aliasFor])
    else None
  }

  predicate HasKind(s: Schema, name: string, kind: FieldKind) {
    name in s && s[name].kind == kind
  }

  // ----- Literals -----

  function IntOf(v: ValueExpr): Option<int> {
    if v.LiteralValue? && v.lit.Number? then Some(v.lit.i) else None
  }

  function TextOf(v: ValueExpr): Option<string> {
    if v.LiteralValue? && v.lit.Text? then Some(v.lit.s) else None
  }

  function BoolOf(v: ValueExpr): Option<bool> {
    if v.LiteralValue? && v.lit.Boolean? then Some(v.lit.b) else None
  }

  /** The database value that a field of the given type takes for a literal that is not null. */
  function ScalarValue(t: FieldType, v: ValueExpr): Option<Value> {
    if t == StringType then (if TextOf(v).Some? then Some(Str(TextOf(v).value)) else None)
    else if t == IntType || t == TimestampType then (if IntOf(v).Some? then Some(Int(IntOf(v).value)) else None)
    else None
  }

  /** The values of an IN list on a column; timestamps are not supported there. */
  function ScalarValues(t: FieldType, vs: seq<ValueExpr>): Option<seq<Value>> {
    if vs == [] then Some([])
    else
      var head, tail := ScalarValue(t, vs[0]), ScalarValues(t, vs[1..]);
      if t == TimestampType || head.None? || tail.None? then None else Some([head.value] + tail.value)
  }

  function TextsOf(vs: seq<ValueExpr>): Option<seq<string>> {
    if vs == [] then Some([])
    else
      var head, tail := TextOf(vs[0]), TextsOf(vs[1..]);
      if head.None? || tail.None? then None else Some([head.value] + tail.value)
  }

  // ----- Truth -----

  /** How membership in a list compares tags: SQLite searches the text with LIKE, the others compare strings. */
  function MemberFold(g: Engine, d: Dialect): Folding { if d == SQLite then g.listFold else EXACTLY }

  /** How `exists(t, t == v)` compares tags: MySQL uses LIKE there too. */
  function EqualsFold(g: Engine, d: Dialect): Folding { if d == Postgres then EXACTLY else g.listFold }

  function WhereOf(p: Predicate): Where {
    match p
    case Equals(_) => Whole
    case HasPrefix(_) => AtStart
    case HasSuffix(_) => AtEnd
    case HasPart(_) => Anywhere
  }

  function TestFold(g: Engine, d: Dialect, p: Predicate): Folding { if p.Equals? then EqualsFold(g, d) else g.listFold }

  ghost predicate Satisfies(g: Engine, d: Dialect, p: Predicate, tags: seq<string>) {
    SomeTag(tags, t => Matches(TestFold(g, d, p), WhereOf(p), t, p.v))
  }

  ghost predicate HasMember(g: Engine, d: Dialect, tags: seq<string>, v: string) {
    SomeTag(tags, t => Matches(MemberFold(g, d), Whole, t, v))
  }

  /** A tag is listed if it equals the given one or lies below it in the hierarchy. */
  ghost predicate Listed(g: Engine, d: Dialect, tags: seq<string>, v: string) {
    HasMember(g, d, tags, v) || SomeTag(tags, t => Matches(g.listFold, AtStart, t, v + "/"))
  }

  /** What a leaf is meant to say of a row. */
  ghost function LeafTruth(g: Engine, d: Dialect, s: Schema, r: Row, c: Condition): Truth
    requires c.IsLeaf()
  {
    match c
    case FieldPredicate(f) => if HasKind(s, f, JsonBool) then r.jsonTrue(f) else TruthOf(r.column(f) == Bool(true))
    case Comparison(FieldRef(f), op, right) =>
      if BoolOf(right).Some? && HasKind(s, f, JsonBool) then r.jsonCompare(f, op, BoolOf(right).value)
      else if BoolOf(right).Some? then CompareValues(g, r.column(f), op, Bool(BoolOf(right).value))
      else if right == LiteralValue(NullLiteral) && op == Eq then TruthOf(r.column(f).Null?)
      else if right == LiteralValue(NullLiteral) then TruthOf(!r.column(f).Null?)
      else if TextOf(right).Some? then CompareValues(g, r.column(f), op, Str(TextOf(right).value))
      else if IntOf(right).Some? then CompareValues(g, r.column(f), op, Int(IntOf(right).value))
      else Unknown
    case Comparison(FunctionValue(_, args), op, right) =>
      if |args| == 1 && args[0].FieldRef? && IntOf(right).Some?
      then
        var list := r.list(args[0].name);
        TruthOf(Ordered(op, (if list.None? then 0 else |list.value|) - IntOf(right).value))
      else Unknown
    case In(FieldRef(f), values) =>
      if f == "tag" && ResolveAlias(s, "tag").Some? && TextsOf(values).Some?
      then
        var list := r.list(ResolveAlias(s, "tag").value.name);
        if list.None? then Unknown
        else TruthOf(exists v :: v in TextsOf(values).value && Listed(g, d, list.value, v))
      else if f in s && ScalarValues(s[f].fieldType, values).Some?
      then AnyEqual(g, r.column(f), ScalarValues(s[f].fieldType, values).value)
      else Unknown
    case ElementIn(e, f) =>
      if r.list(f).None? || TextOf(e).None? then Unknown
      else TruthOf(HasMember(g, d, r.list(f).value, TextOf(e).value))
    case Contains(f, v) =>
      if r.column(f).Str? then TruthOf(Occurs(g.textFold, r.column(f).s, v)) else Unknown
    case Exists(f, p) => TruthOf(r.list(f).Some? && Satisfies(g, d, p, r.list(f).value))
    case _ => Unknown
  }

  /** The value that a tree is meant to have, by Kleene's three-valued logic. */
  ghost function TreeTruth(g: Engine, d: Dialect, s: Schema, r: Row, c: Condition): Truth {
    match c
    case Logical(AndOf, a, b) => And(TreeTruth(g, d, s, r, a), TreeTruth(g, d, s, r, b))
    case Logical(OrOf, a, b) => Or(TreeTruth(g, d, s, r, a), TreeTruth(g, d, s, r, b))
    case NotOf(a) => Not(TreeTruth(g, d, s, r, a))
    case Constant(b) => TruthOf(b)
    case _ => LeafTruth(g, d, s, r, c)
  }

  // ----- What the tests of the database find -----

  predicate Finds(g: Engine, w: Where, tags: seq<string>, v: string) {
    Like(g.listFold, Pattern(w, v), Json(tags, g.separator))
  }

  /** A membership test, by LIKE on the text or by the JSON operator of the database. */
  predicate FindsMember(g: Engine, byText: bool, tags: seq<string>, v: string) {
    if byText then Finds(g, Whole, tags, v) else v in tags
  }

  predicate FindsListed(g: Engine, d: Dialect, tags: seq<string>, v: string) {
    FindsMember(g, d == SQLite, tags, v) || Finds(g, AtStart, tags, v + "/")
  }

  predicate FindsTag(g: Engine, d: Dialect, p: Predicate, tags: seq<string>) {
    match p
    case Equals(v) => FindsMember(g, d != Postgres, tags, v)
    case HasPrefix(v) => FindsMember(g, d != Postgres, tags, v) || Finds(g, AtStart, tags, v)
    case _ => Finds(g, WhereOf(p), tags, p.v)
  }

  /** What the tests written for a leaf find on a row, wildcards and collisions included. */
  ghost function LeafFinds(g: Engine, d: Dialect, s: Schema, r: Row, c: Condition): Truth
    requires c.IsLeaf()
  {
    if c.In? && c.element == FieldRef("tag") && ResolveAlias(s, "tag").Some? && TextsOf(c.values).Some?
    then
      var list := r.list(ResolveAlias(s, "tag").value.name);
      if list.None? then Unknown
      else TruthOf(exists v :: v in TextsOf(c.values).value && FindsListed(g, d, list.value, v))
    else match c
      case ElementIn(e, f) =>
        if r.list(f).None? || TextOf(e).None? then Unknown
        else TruthOf(FindsMember(g, d == SQLite, r.list(f).value, TextOf(e).value))
      case Contains(f, v) =>
        if r.column(f).Str? then TruthOf(Like(g.textFold, Pattern(Anywhere, v), r.column(f).s)) else Unknown
      case Exists(f, p) => TruthOf(r.list(f).Some? && r.list(f).value != [] && FindsTag(g, d, p, r.list(f).value))
      case _ => LeafTruth(g, d, s, r, c)
  }

  ghost function TreeFinds(g: Engine, d: Dialect, s: Schema, r: Row, c: Condition): Truth {
    match c
    case Logical(AndOf, a, b) => And(TreeFinds(g, d, s, r, a), TreeFinds(g, d, s, r, b))
    case Logical(OrOf, a, b) => Or(TreeFinds(g, d, s, r, a), TreeFinds(g, d, s, r, b))
    case NotOf(a) => Not(TreeFinds(g, d, s, r, a))
    case Constant(b) => TruthOf(b)
    case _ => LeafFinds(g, d, s, r, c)
  }

  // ----- Folding, on the tree alone -----

  datatype Fold = Always | Never | Depends

  function FoldAnd(a: Fold, b: Fold): Fold {
    if a.Never? || b.Never? then Never else if a.Always? then b else if b.Always? then a else Depends
  }

  function FoldOr(a: Fold, b: Fold): Fold {
    if a.Always? || b.Always? then Always else if a.Never? then b else if b.Never? then a else Depends
  }

  /** What the constants in a tree decide by themselves. */
  function FoldOf(c: Condition): Fold {
    match c
    case Logical(AndOf, a, b) => FoldAnd(FoldOf(a), FoldOf(b))
    case Logical(OrOf, a, b) => FoldOr(FoldOf(a), FoldOf(b))
    case NotOf(a) => (match FoldOf(a) case Always => Never case Never => Always case Depends => Depends)
    case Constant(b) => if b then Always else Never
    case _ => Depends
  }

  /** A folded tree has its value on every row, whatever is NULL there. */
  lemma {:induction false} FoldIsTruth(g: Engine, d: Dialect, s: Schema, r: Row, c: Condition)
    ensures FoldOf(c) == Always ==> TreeTruth(g, d, s, r, c) == TreeFinds(g, d, s, r, c) == True
    ensures FoldOf(c) == Never ==> TreeTruth(g, d, s, r, c) == TreeFinds(g, d, s, r, c) == False
  {
    hide LeafTruth, LeafFinds;
    match c
    case Logical(_, a, b) =>
      FoldIsTruth(g, d, s, r, a);
      FoldIsTruth(g, d, s, r, b);
    case NotOf(a) => FoldIsTruth(g, d, s, r, a);
    case _ =>
  }
}
