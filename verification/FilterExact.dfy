/** When the tests that the renderer writes say what a condition tree is meant to say. */
module FilterExact {
  import opened FilterIr
  import opened FilterSafe
  import opened FilterSql
  import opened FilterTags
  import opened Texts

  /** What the string theorems rely on: the folding keeps quotes, punctuation and wildcards apart, and lists hold
      tags. */
  ghost predicate Sane(g: Engine, r: Row) {
    && Separates(g.listFold) && IsSeparator(g.separator)
    && forall f :: r.list(f).Some? ==> AllTags(r.list(f).value)
  }

  /** Rows of tags are sane in a database that compares characters exactly or, as SQLite does, by ASCII lower case. */
  lemma TagRowsAreSane(g: Engine, r: Row)
    requires (g.listFold == EXACTLY || g.listFold == AsciiLower) && IsSeparator(g.separator)
    requires forall f :: r.list(f).Some? ==> AllTags(r.list(f).value)
    ensures Sane(g, r)
  {
    hide Separates;
    CommonFoldingsSeparate();
  }

  /** The texts of a leaf are safe; the JSON operators take any text. */
  predicate CleanLeaf(sep: string, d: Dialect, c: Condition)
    requires c.IsLeaf()
  {
    match c
    case In(FieldRef(f), values) =>
      f == "tag" && TextsOf(values).Some? ==> forall v | v in TextsOf(values).value :: CleanTag(sep, d, v)
    case ElementIn(e, _) => d == SQLite && TextOf(e).Some? ==> Safe(Whole, sep, TextOf(e).value)
    case Contains(_, v) => Plain(v)
    case Exists(_, p) => (p.Equals? && d == Postgres) || Safe(WhereOf(p), sep, p.v)
    case _ => true
  }

  predicate CleanTag(sep: string, d: Dialect, v: string) {
    Safe(AtStart, sep, v + "/") && (d == SQLite ==> Safe(Whole, sep, v))
  }

  predicate Clean(sep: string, d: Dialect, c: Condition) {
    match c
    case Logical(_, a, b) => Clean(sep, d, a) && Clean(sep, d, b)
    case NotOf(a) => Clean(sep, d, a)
    case Constant(_) => true
    case _ => CleanLeaf(sep, d, c)
  }

  // ----- Clean leaves find what is meant -----

  ghost predicate SaneList(g: Engine, tags: seq<string>) {
    Separates(g.listFold) && IsSeparator(g.separator) && AllTags(tags)
  }

  lemma ExactlySame(s: string, t: string)
    ensures Same(EXACTLY, s, t) <==> s == t
  {
  }

  lemma MemberIsMeant(g: Engine, byText: bool, tags: seq<string>, v: string)
    requires SaneList(g, tags) && (byText ==> Safe(Whole, g.separator, v))
    ensures FindsMember(g, byText, tags, v) <==>
      SomeTag(tags, t => Matches(if byText then g.listFold else EXACTLY, Whole, t, v))
  {
    hide Like, Json, Pattern, Same, Safe;
    if byText {
      LikeIsSome(g.listFold, Whole, tags, g.separator, v);
    } else {
      forall t
        ensures Same(EXACTLY, t, v) <==> t == v
      {
        ExactlySame(t, v);
      }
    }
  }

  lemma ListedIsMeant(g: Engine, d: Dialect, tags: seq<string>, v: string)
    requires SaneList(g, tags) && CleanTag(g.separator, d, v)
    ensures FindsListed(g, d, tags, v) <==> Listed(g, d, tags, v)
  {
    hide Like, Json, Pattern, Matches, Safe, FindsMember;
    MemberIsMeant(g, d == SQLite, tags, v);
    LikeIsSome(g.listFold, AtStart, tags, g.separator, v + "/");
  }

  /** What equals a text starts with it, so the test for the whole tag beside that for its start adds nothing. */
  lemma PrefixIsMeant(g: Engine, byText: bool, tags: seq<string>, v: string)
    requires SaneList(g, tags) && Safe(AtStart, g.separator, v)
    ensures FindsMember(g, byText, tags, v) ==> Finds(g, AtStart, tags, v)
  {
    hide Like, Json, Pattern;
    StartSafeWholeSafe(g.separator, v);
    MemberIsMeant(g, byText, tags, v);
    LikeIsSome(g.listFold, AtStart, tags, g.separator, v);
    forall t | t in tags && Matches(if byText then g.listFold else EXACTLY, Whole, t, v)
      ensures Matches(g.listFold, AtStart, t, v)
    {
    }
  }

  lemma TagIsMeant(g: Engine, d: Dialect, p: Predicate, tags: seq<string>)
    requires SaneList(g, tags) && tags != [] && ((p.Equals? && d == Postgres) || Safe(WhereOf(p), g.separator, p.v))
    ensures FindsTag(g, d, p, tags) <==> Satisfies(g, d, p, tags)
  {
    hide Like, Json, Pattern, Matches, Safe, FindsMember;
    if p.Equals? {
      MemberIsMeant(g, d != Postgres, tags, p.v);
    } else {
      LikeIsSome(g.listFold, WhereOf(p), tags, g.separator, p.v);
      if p.HasPrefix? {
        PrefixIsMeant(g, d != Postgres, tags, p.v);
      }
    }
  }

  lemma LeafIsMeant(g: Engine, d: Dialect, s: Schema, r: Row, c: Condition)
    requires c.IsLeaf() && Sane(g, r) && CleanLeaf(g.separator, d, c)
    ensures LeafFinds(g, d, s, r, c) == LeafTruth(g, d, s, r, c)
  {
    hide Like, Json, Pattern, Matches, Safe, FindsMember, FindsTag, FindsListed, Listed, Satisfies, CleanTag, Separates;
    match c
    case In(FieldRef(f), values) =>
      if f == "tag" && ResolveAlias(s, "tag").Some? && TextsOf(values).Some? {
        var list := r.list(ResolveAlias(s, "tag").value.name);
        if list.Some? {
          forall v | v in TextsOf(values).value
            ensures FindsListed(g, d, list.value, v) <==> Listed(g, d, list.value, v)
          {
            ListedIsMeant(g, d, list.value, v);
          }
        }
      }
    case ElementIn(e, f) =>
      if r.list(f).Some? && TextOf(e).Some? {
        MemberIsMeant(g, d == SQLite, r.list(f).value, TextOf(e).value);
      }
    case Contains(f, v) =>
      if r.column(f).Str? {
        ContainsIsMeant(g.textFold, v, r.column(f).s);
      }
    case Exists(f, p) =>
      NoTagSatisfies(g, d, p);
      if r.list(f).Some? && r.list(f).value != [] {
        TagIsMeant(g, d, p, r.list(f).value);
      }
    case _ =>
  }

  lemma ContainsIsMeant(fold: Folding, v: string, text: string)
    requires Plain(v)
    ensures Like(fold, Pattern(Anywhere, v), text) <==> Occurs(fold, text, v)
  {
    LikeSearch(fold, v, text);
  }

  lemma NoTagSatisfies(g: Engine, d: Dialect, p: Predicate)
    ensures !Satisfies(g, d, p, [])
  {
  }

  /** A clean tree finds what it is meant to find. */
  lemma {:induction false} TreeIsMeant(g: Engine, d: Dialect, s: Schema, r: Row, c: Condition)
    requires Sane(g, r) && Clean(g.separator, d, c)
    ensures TreeFinds(g, d, s, r, c) == TreeTruth(g, d, s, r, c)
  {
    hide LeafFinds, LeafTruth, CleanLeaf, Sane;
    match c
    case Logical(_, a, b) =>
      TreeIsMeant(g, d, s, r, a);
      TreeIsMeant(g, d, s, r, b);
    case NotOf(a) => TreeIsMeant(g, d, s, r, a);
    case Constant(_) =>
    case _ => LeafIsMeant(g, d, s, r, c);
  }

  // ----- Leaves that are not clean are wrong on some row -----

  /** A row whose lists are all `tags` and whose columns are all `text`. */
  function RowOf(tags: seq<string>, text: string): Row {
    Row(_ => Str(text), _ => Some(tags), _ => Unknown, (_, _, _) => Unknown)
  }

  /** On every sane row the leaf finds what it is meant to find. */
  ghost predicate AlwaysMeant(g: Engine, d: Dialect, s: Schema, c: Condition)
    requires c.IsLeaf()
  {
    forall r | Sane(g, r) :: LeafFinds(g, d, s, r, c) == LeafTruth(g, d, s, r, c)
  }

  lemma CleanIsMeant(g: Engine, d: Dialect, s: Schema, c: Condition)
    requires c.IsLeaf() && CleanLeaf(g.separator, d, c)
    ensures AlwaysMeant(g, d, s, c)
  {
    forall r | Sane(g, r)
      ensures LeafFinds(g, d, s, r, c) == LeafTruth(g, d, s, r, c)
    {
      LeafIsMeant(g, d, s, r, c);
    }
  }

  ghost predicate Tried(g: Engine, v: string) {
    Separates(g.listFold) && IsSeparator(g.separator) && Unescaped(v)
  }

  /** `"v" in list` is right on all rows if and only if the leaf is clean. */
  lemma ElementExact(g: Engine, d: Dialect, s: Schema, f: string, v: string)
    requires Tried(g, v)
    ensures var c := ElementIn(LiteralValue(Text(v)), f);
      CleanLeaf(g.separator, d, c) <==> AlwaysMeant(g, d, s, c)
  {
    hide Like, Json, Pattern, Matches, Safe;
    var c := ElementIn(LiteralValue(Text(v)), f);
    if CleanLeaf(g.separator, d, c) {
      CleanIsMeant(g, d, s, c);
    } else {
      var tags := Mistake(g.listFold, Whole, g.separator, v);
      var r := RowOf(tags, "");
      assert Sane(g, r) && LeafFinds(g, d, s, r, c) == True && LeafTruth(g, d, s, r, c) == False;
    }
  }

  /** The same for every `exists`. */
  lemma ExistsExact(g: Engine, d: Dialect, s: Schema, f: string, p: Predicate)
    requires Tried(g, p.v)
    ensures CleanLeaf(g.separator, d, Exists(f, p)) <==> AlwaysMeant(g, d, s, Exists(f, p))
  {
    hide Like, Json, Pattern, Matches, Safe;
    var c := Exists(f, p);
    if CleanLeaf(g.separator, d, c) {
      CleanIsMeant(g, d, s, c);
    } else {
      var tags := Mistake(g.listFold, WhereOf(p), g.separator, p.v);
      var r := RowOf(tags, "");
      assert FindsTag(g, d, p, tags) && !Satisfies(g, d, p, tags);
      assert Sane(g, r) && LeafFinds(g, d, s, r, c) == True && LeafTruth(g, d, s, r, c) == False;
    }
  }

  /** The same for `tag in ["v"]`, which looks for the tag and for what lies below it. */
  lemma TagExact(g: Engine, d: Dialect, s: Schema, v: string)
    requires Tried(g, v) && ResolveAlias(s, "tag").Some?
    ensures var c := In(FieldRef("tag"), [LiteralValue(Text(v))]);
      CleanLeaf(g.separator, d, c) <==> AlwaysMeant(g, d, s, c)
  {
    hide Like, Json, Pattern, Safe, FindsListed, Listed, TextsOf, Separates;
    var c := In(FieldRef("tag"), [LiteralValue(Text(v))]);
    OneText(v);
    if CleanLeaf(g.separator, d, c) {
      CleanIsMeant(g, d, s, c);
    } else {
      var tags := TagMistake(g, d, v);
      WrongRow(g, d, s, c, v, RowOf(tags, ""), tags);
    }
  }

  /** A row on which one listed tag is found that is not meant. */
  lemma WrongRow(g: Engine, d: Dialect, s: Schema, c: Condition, v: string, r: Row, tags: seq<string>)
    requires c == In(FieldRef("tag"), [LiteralValue(Text(v))]) && ResolveAlias(s, "tag").Some? && Tried(g, v)
    requires r == RowOf(tags, "") && AllTags(tags) && FindsListed(g, d, tags, v) && !Listed(g, d, tags, v)
    ensures !AlwaysMeant(g, d, s, c)
  {
    hide FindsListed, Listed, TextsOf, Separates;
    OneText(v);
    assert v in [v];
    assert Sane(g, r) && LeafFinds(g, d, s, r, c) == True && LeafTruth(g, d, s, r, c) == False;
  }

  lemma OneText(v: string)
    ensures TextsOf([LiteralValue(Text(v))]) == Some([v])
  {
    var vs := [LiteralValue(Text(v))];
    assert vs[1..] == [];
    assert TextsOf(vs) == Some([v] + []) && [v] + [] == [v];
  }

  ghost function TagMistake(g: Engine, d: Dialect, v: string): (tags: seq<string>)
    requires Tried(g, v) && !CleanTag(g.separator, d, v)
    ensures AllTags(tags) && FindsListed(g, d, tags, v) && !Listed(g, d, tags, v)
  {
    hide Like, Json, Pattern, Fits, Separates;
    Below(v);
    if Safe(AtStart, g.separator, v + "/") then
      var tags := Mistake(g.listFold, Whole, g.separator, v);
      NotListed(g, d, tags, v);
      tags
    else
      var tags := Mistake(g.listFold, AtStart, g.separator, v + "/");
      NotListed(g, d, tags, v);
      tags
  }

  lemma Below(v: string)
    requires Unescaped(v)
    ensures Unescaped(v + "/") && (IsTag(v + "/") <==> IsTag(v)) && (Plain(v + "/") <==> Plain(v))
  {
    forall c
      ensures c in v + "/" <==> c in v || c == '/'
    {
    }
  }

  /** A text that is no tag is not listed; a tag is not where no tag has its length and none lies below it. */
  lemma NotListed(g: Engine, d: Dialect, tags: seq<string>, v: string)
    requires Tried(g, v) && AllTags(tags)
    requires IsTag(v) ==> forall t | t in tags :: |t| == |v| + 1
    requires IsTag(v) ==> !SomeTag(tags, t => Matches(g.listFold, AtStart, t, v + "/"))
    ensures !Listed(g, d, tags, v)
  {
    hide Separates;
    Below(v);
    if !IsTag(v) {
      forall t | t in tags
        ensures t != v && !Matches(g.listFold, Whole, t, v) && !Matches(g.listFold, AtStart, t, v + "/")
      {
        NoTagHolds(g.listFold, Whole, t, v);
        NoTagHolds(g.listFold, AtStart, t, v + "/");
      }
    }
  }

  /** The same for `contains` on a column. */
  lemma ContainsExact(g: Engine, d: Dialect, s: Schema, f: string, v: string)
    requires Separates(g.textFold) && Separates(g.listFold) && IsSeparator(g.separator)
    ensures CleanLeaf(g.separator, d, Contains(f, v)) <==> AlwaysMeant(g, d, s, Contains(f, v))
  {
    hide Like, Json, Pattern;
    var c := Contains(f, v);
    if CleanLeaf(g.separator, d, c) {
      CleanIsMeant(g, d, s, c);
    } else {
      var i :| 0 <= i < |v| && IsWild(v[i]);
      var text := v[i := 'x'];
      var r := RowOf([], text);
      WildInText(g.textFold, v, text);
      assert g.textFold(v[i]) != g.textFold('x');
      assert !OccursAt(g.textFold, text, v, 0);
      assert Sane(g, r) && LeafFinds(g, d, s, r, c) == True && LeafTruth(g, d, s, r, c) == False;
    }
  }

  lemma WildInText(fold: Folding, v: string, text: string)
    requires |v| == |text| && forall i | 0 <= i < |v| :: IsWild(v[i]) || v[i] == text[i]
    ensures Like(fold, Pattern(Anywhere, v), text)
  {
    LikePointwise(fold, v, text, "");
    assert text + "" == text && Pattern(Anywhere, v)[1..] == v + "%" && text[0..] == text;
    LikeFrom(fold, Pattern(Anywhere, v), text, 0);
  }
}
