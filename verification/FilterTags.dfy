/** LIKE tests on the JSON text of a tag list. */
module FilterTags {
  import opened Texts

  // ----- LIKE -----

  /** How LIKE compares characters: by their images under a folding such as the one to lower case. */
  type Folding = char -> char

  predicate IsWild(c: char) { c == '%' || c == '_' }

  predicate Plain(s: string) {
    forall c | c in s :: !IsWild(c)
  }

  /** SQL LIKE: `%` stands for any text, `_` for any character. */
  predicate Like(fold: Folding, pattern: string, text: string)
    decreases |pattern|
  {
    if pattern == "" then text == ""
    else if pattern[0] == '%' then exists k :: 0 <= k <= |text| && Like(fold, pattern[1..], text[k..])
    else text != "" && (pattern[0] == '_' || fold(pattern[0]) == fold(text[0])) && Like(fold, pattern[1..], text[1..])
  }

  /** Equality up to folding. */
  predicate Same(fold: Folding, s: string, t: string) {
    |s| == |t| && forall i | 0 <= i < |s| :: fold(s[i]) == fold(t[i])
  }

  predicate OccursAt(fold: Folding, text: string, s: string, k: int) {
    0 <= k <= k + |s| <= |text| && forall i | 0 <= i < |s| :: fold(text[k + i]) == fold(s[i])
  }

  predicate Occurs(fold: Folding, text: string, s: string) {
    exists k :: 0 <= k <= |text| && OccursAt(fold, text, s, k)
  }

  predicate StartsWith(fold: Folding, text: string, s: string) {
    OccursAt(fold, text, s, 0)
  }

  predicate EndsWith(fold: Folding, text: string, s: string) {
    OccursAt(fold, text, s, |text| - |s|)
  }

  lemma LikeAnything(fold: Folding, text: string)
    ensures Like(fold, "%", text)
  {
    assert Like(fold, "%"[1..], text[|text|..]);
  }

  /** A pattern without wildcards before a final `%` is a prefix test. */
  lemma {:induction false} LikePrefix(fold: Folding, s: string, text: string)
    requires Plain(s)
    ensures Like(fold, s + "%", text) <==> StartsWith(fold, text, s)
  {
    var p := s + "%";
    if s == "" {
      assert p == "%";
      LikeAnything(fold, text);
    } else {
      assert p[1..] == s[1..] + "%";
      assert s[0] in s;
      if text != "" {
        LikePrefix(fold, s[1..], text[1..]);
        StartsStep(fold, text, s);
      }
    }
  }

  lemma StartsStep(fold: Folding, text: string, s: string)
    requires text != "" && s != ""
    ensures StartsWith(fold, text, s) <==> fold(text[0]) == fold(s[0]) && StartsWith(fold, text[1..], s[1..])
  {
    assert forall i | 0 < i < |s| :: s[i] == s[1..][i - 1];
    assert forall i | 0 <= i < |s| - 1 :: s[1..][i] == s[i + 1];
  }

  /** `%s%` with no wildcard in `s` is a search for `s`. */
  lemma LikeSearch(fold: Folding, s: string, text: string)
    requires Plain(s)
    ensures Like(fold, "%" + s + "%", text) <==> Occurs(fold, text, s)
  {
    var p := "%" + s + "%";
    assert p[1..] == s + "%";
    forall k | 0 <= k <= |text|
      ensures Like(fold, p[1..], text[k..]) <==> OccursAt(fold, text, s, k)
    {
      LikePrefix(fold, s, text[k..]);
    }
  }

  // ----- JSON text -----

  const QUOTE := "\""

  /** The characters outside the strings of an array of strings. */
  predicate IsPunctuation(c: char) { c == '[' || c == ']' || c == ',' || c == ' ' }

  /** A character that a tag may hold: it stands for itself in JSON text and is no part of the array around it. */
  predicate IsTagRune(c: char) {
    c != '"' && c != '\\' && !IsPunctuation(c) && c >= ' '
  }

  predicate IsTag(s: string) {
    forall c | c in s :: IsTagRune(c)
  }

  /** A text in which every character stands for itself in JSON. */
  predicate Unescaped(s: string) {
    forall c | c in s :: c != '"' && c != '\\' && c >= ' '
  }

  /** The folding keeps quotes, punctuation and wildcards apart from all other characters. */
  ghost predicate Separates(fold: Folding) {
    forall c: char, d: char | c == '"' || IsPunctuation(c) || IsWild(c) :: fold(c) == fold(d) ==> c == d
  }

  function Quoted(tag: string): string { QUOTE + tag + QUOTE }

  function Members(tags: seq<string>, sep: string): string {
    if tags == [] then ""
    else if |tags| == 1 then Quoted(tags[0])
    else Quoted(tags[0]) + sep + Members(tags[1..], sep)
  }

  /** The text of a JSON array of strings, as the database prints it. */
  function Json(tags: seq<string>, sep: string): string {
    "[" + Members(tags, sep) + "]"
  }

  predicate IsSeparator(sep: string) { sep == "," || sep == ", " }

  // ----- Text as runs between quotes -----

  predicate QuoteFree(s: string) {
    forall c | c in s :: c != '"'
  }

  ghost predicate AllQuoteFree(runs: seq<string>) {
    forall s | s in runs :: QuoteFree(s)
  }

  /** Runs of text with a quote between each two. */
  function Run(runs: seq<string>): string
    requires runs != []
  {
    if |runs| == 1 then runs[0] else runs[0] + QUOTE + Run(runs[1..])
  }

  function Inside(tags: seq<string>, sep: string): seq<string> {
    if |tags| <= 1 then tags else [tags[0], sep] + Inside(tags[1..], sep)
  }

  /** The runs of the JSON text of a list that is not empty: its tags, the separators and the brackets. */
  function Runs(tags: seq<string>, sep: string): seq<string> { ["["] + Inside(tags, sep) + ["]"] }

  lemma {:induction false} MembersAreRuns(tags: seq<string>, sep: string)
    requires tags != []
    ensures QUOTE + Run(Inside(tags, sep) + ["]"]) == Members(tags, sep) + "]"
  {
    var runs := Inside(tags, sep) + ["]"];
    if |tags| == 1 {
      assert runs[1..] == ["]"];
    } else {
      var rest := Inside(tags[1..], sep) + ["]"];
      MembersAreRuns(tags[1..], sep);
      assert runs[1..] == [sep] + rest && runs[1..][1..] == rest;
      OneMember(tags[0], sep, Run(rest), Members(tags[1..], sep));
    }
  }

  lemma OneMember(t: string, sep: string, run: string, members: string)
    requires QUOTE + run == members + "]"
    ensures QUOTE + (t + QUOTE + (sep + QUOTE + run)) == Quoted(t) + sep + members + "]"
  {
    Associates(sep, QUOTE, run);
    Associates(sep, members, "]");
    Associates(Quoted(t) + sep, members, "]");
  }

  lemma JsonIsRuns(tags: seq<string>, sep: string)
    requires tags != []
    ensures Json(tags, sep) == Run(Runs(tags, sep))
  {
    MembersAreRuns(tags, sep);
    assert Runs(tags, sep)[1..] == Inside(tags, sep) + ["]"];
    assert "[" + (QUOTE + Run(Inside(tags, sep) + ["]"])) == Run(Runs(tags, sep));
  }

  lemma {:induction false} InsideHolds(tags: seq<string>, sep: string)
    ensures forall s :: s in Inside(tags, sep) <==> s in tags || (|tags| > 1 && s == sep)
  {
    if |tags| > 1 {
      InsideHolds(tags[1..], sep);
    }
  }

  // ----- Where a text is looked for -----

  /** The whole of a tag, its start, its end, or anywhere in it. */
  datatype Where = Whole | AtStart | AtEnd | Anywhere

  /** What is searched in the JSON text. */
  function Core(w: Where, v: string): string {
    match w
    case Whole => Quoted(v)
    case AtStart => QUOTE + v
    case AtEnd => v + QUOTE
    case Anywhere => v
  }

  function Pattern(w: Where, v: string): string { "%" + Core(w, v) + "%" }

  predicate Matches(fold: Folding, w: Where, t: string, v: string) {
    match w
    case Whole => Same(fold, t, v)
    case AtStart => StartsWith(fold, t, v)
    case AtEnd => EndsWith(fold, t, v)
    case Anywhere => Occurs(fold, t, v)
  }

  ghost predicate SomeMatches(fold: Folding, w: Where, runs: seq<string>, v: string) {
    exists s :: s in runs && Matches(fold, w, s, v)
  }

  /** The runs that have a quote on the side where the searched text has one. */
  function Scope(w: Where, runs: seq<string>): seq<string>
    requires runs != []
  {
    match w
    case Whole => if |runs| == 1 then [] else runs[1..|runs| - 1]
    case AtStart => runs[1..]
    case AtEnd => runs[..|runs| - 1]
    case Anywhere => runs
  }

  lemma QuotesApart(fold: Folding, s: string, i: int)
    requires Separates(fold) && QuoteFree(s) && 0 <= i < |s|
    ensures fold(s[i]) != fold('"')
  {
    assert s[i] in s;
  }

  /** Text without a quote is found on one side of a quote. */
  lemma AcrossAnywhere(fold: Folding, a: string, b: string, v: string)
    requires Separates(fold) && QuoteFree(v)
    ensures Occurs(fold, a + QUOTE + b, v) <==> Occurs(fold, a, v) || Occurs(fold, b, v)
  {
    var text := a + QUOTE + b;
    forall k | 0 <= k <= |text| && OccursAt(fold, text, v, k)
      ensures OccursAt(fold, a, v, k) || OccursAt(fold, b, v, k - |a| - 1)
    {
      if k <= |a| < k + |v| {
        QuotesApart(fold, v, |a| - k);
      }
    }
    forall k | 0 <= k <= |a| && OccursAt(fold, a, v, k)
      ensures OccursAt(fold, text, v, k)
    {
    }
    forall k | 0 <= k <= |b| && OccursAt(fold, b, v, k)
      ensures OccursAt(fold, text, v, k + |a| + 1)
    {
    }
  }

  lemma AcrossStart(fold: Folding, a: string, b: string, v: string)
    requires Separates(fold) && QuoteFree(a)
    ensures Occurs(fold, a + QUOTE + b, QUOTE + v) <==> StartsWith(fold, b, v) || Occurs(fold, b, QUOTE + v)
  {
    var text, s := a + QUOTE + b, QUOTE + v;
    forall k | 0 <= k <= |text| && OccursAt(fold, text, s, k)
      ensures StartsWith(fold, b, v) || OccursAt(fold, b, s, k - |a| - 1)
    {
      assert fold(text[k + 0]) == fold(s[0]);
      if k < |a| {
        QuotesApart(fold, a, k);
      }
      if k == |a| {
        assert forall i | 0 <= i < |v| :: v[i] == s[i + 1];
      }
    }
    if StartsWith(fold, b, v) {
      assert forall i | 0 < i < |s| :: s[i] == v[i - 1];
      assert OccursAt(fold, text, s, |a|);
    }
    forall k | 0 <= k <= |b| && OccursAt(fold, b, s, k)
      ensures OccursAt(fold, text, s, k + |a| + 1)
    {
    }
  }

  lemma AcrossEnd(fold: Folding, a: string, b: string, v: string)
    requires Separates(fold) && QuoteFree(a) && QuoteFree(v)
    ensures Occurs(fold, a + QUOTE + b, v + QUOTE) <==> EndsWith(fold, a, v) || Occurs(fold, b, v + QUOTE)
  {
    var text, s := a + QUOTE + b, v + QUOTE;
    forall k | 0 <= k <= |text| && OccursAt(fold, text, s, k)
      ensures EndsWith(fold, a, v) || OccursAt(fold, b, s, k - |a| - 1)
    {
      assert fold(text[k + |v|]) == fold(s[|v|]);
      assert forall i | 0 <= i < |v| :: v[i] == s[i];
      if k + |v| < |a| {
        QuotesApart(fold, a, k + |v|);
      } else if k <= |a| < k + |v| {
        QuotesApart(fold, v, |a| - k);
      }
    }
    if EndsWith(fold, a, v) {
      assert OccursAt(fold, text, s, |a| - |v|);
    }
    forall k | 0 <= k <= |b| && OccursAt(fold, b, s, k)
      ensures OccursAt(fold, text, s, k + |a| + 1)
    {
    }
  }

  lemma NoQuoteInside(fold: Folding, a: string, v: string)
    requires Separates(fold) && QuoteFree(a)
    ensures !Occurs(fold, a, QUOTE + v) && !Occurs(fold, a, v + QUOTE)
  {
    forall k | 0 <= k <= |a|
      ensures !OccursAt(fold, a, QUOTE + v, k) && !OccursAt(fold, a, v + QUOTE, k)
    {
      if k + |v| < |a| {
        QuotesApart(fold, a, k);
        QuotesApart(fold, a, k + |v|);
        assert (QUOTE + v)[0] == '"' && (v + QUOTE)[|v|] == '"';
      }
    }
  }

  lemma StartsBefore(fold: Folding, a: string, b: string, v: string)
    requires Separates(fold) && QuoteFree(v)
    ensures StartsWith(fold, a + QUOTE + b, v) <==> StartsWith(fold, a, v)
  {
    var text := a + QUOTE + b;
    if |a| < |v| {
      QuotesApart(fold, v, |a|);
      assert text[0 + |a|] == '"';
    }
  }

  lemma StartsWhole(fold: Folding, a: string, b: string, v: string)
    requires Separates(fold) && QuoteFree(a) && QuoteFree(v)
    ensures StartsWith(fold, a + QUOTE + b, v + QUOTE) <==> Same(fold, a, v)
  {
    var text, s := a + QUOTE + b, v + QUOTE;
    assert s[|v|] == '"' && text[|a|] == '"';
    if StartsWith(fold, text, s) {
      assert fold(text[0 + |v|]) == fold(s[|v|]);
      if |v| < |a| {
        QuotesApart(fold, a, |v|);
      } else if |a| < |v| {
        assert fold(text[0 + |a|]) == fold(s[|a|]);
        QuotesApart(fold, v, |a|);
      }
      forall i | 0 <= i < |a|
        ensures fold(a[i]) == fold(v[i])
      {
        assert fold(text[0 + i]) == fold(s[i]);
      }
    }
  }

  /** What runs start with is decided by the first of them. */
  lemma RunStarts(fold: Folding, runs: seq<string>, v: string)
    requires Separates(fold) && runs != [] && AllQuoteFree(runs) && QuoteFree(v)
    ensures StartsWith(fold, Run(runs), v) <==> StartsWith(fold, runs[0], v)
    ensures StartsWith(fold, Run(runs), v + QUOTE) <==> |runs| > 1 && Same(fold, runs[0], v)
  {
    hide StartsWith, Same, Separates, QuoteFree;
    assert runs[0] in runs;
    if |runs| == 1 {
      StartsNoQuote(fold, runs[0], v);
    } else {
      StartsBefore(fold, runs[0], Run(runs[1..]), v);
      StartsWhole(fold, runs[0], Run(runs[1..]), v);
    }
  }

  lemma StartsNoQuote(fold: Folding, a: string, v: string)
    requires Separates(fold) && QuoteFree(a)
    ensures !StartsWith(fold, a, v + QUOTE)
  {
    NoQuoteInside(fold, a, v);
  }

  lemma ScopeStep(w: Where, runs: seq<string>)
    requires |runs| > 1
    ensures Scope(w, runs) ==
      (match w
       case Whole => if |runs| == 2 then [] else [runs[1]]
       case AtStart => [runs[1]]
       case _ => [runs[0]]) + Scope(w, runs[1..])
  {
    var rest := runs[1..];
    assert runs[..|runs| - 1] == [runs[0]] + rest[..|rest| - 1];
    assert |runs| > 2 ==> runs[1..|runs| - 1] == [runs[1]] + rest[1..|rest| - 1];
  }

  lemma {:induction false} RunFinds(fold: Folding, w: Where, runs: seq<string>, v: string)
    requires Separates(fold) && runs != [] && AllQuoteFree(runs) && QuoteFree(v)
    ensures Occurs(fold, Run(runs), Core(w, v)) <==> SomeMatches(fold, w, Scope(w, runs), v)
  {
    hide OccursAt, Separates, Occurs, StartsWith, EndsWith, Same, QuoteFree, Scope;
    var a := runs[0];
    if |runs| == 1 {
      OneRun(fold, w, a, v);
      assert runs == [a];
    } else {
      var rest := runs[1..];
      RunFinds(fold, w, rest, v);
      RunStarts(fold, rest, v);
      ScopeStep(w, runs);
      OneMore(fold, w, if w == AtEnd || w == Anywhere then a else rest[0], Scope(w, rest), v);
      match w
      case Whole =>
        AcrossStart(fold, a, Run(rest), v + QUOTE);
        assert QUOTE + (v + QUOTE) == Quoted(v);
      case AtStart => AcrossStart(fold, a, Run(rest), v);
      case AtEnd => AcrossEnd(fold, a, Run(rest), v);
      case Anywhere => AcrossAnywhere(fold, a, Run(rest), v);
    }
  }

  lemma OneMore(fold: Folding, w: Where, a: string, runs: seq<string>, v: string)
    ensures SomeMatches(fold, w, [a] + runs, v) <==> Matches(fold, w, a, v) || SomeMatches(fold, w, runs, v)
    ensures SomeMatches(fold, w, [] + runs, v) <==> SomeMatches(fold, w, runs, v)
  {
    hide Matches;
    assert [] + runs == runs;
    assert a in [a] + runs;
  }

  lemma OneRun(fold: Folding, w: Where, a: string, v: string)
    requires Separates(fold) && QuoteFree(a)
    ensures Occurs(fold, a, Core(w, v)) <==> SomeMatches(fold, w, Scope(w, [a]), v)
  {
    NoQuoteInside(fold, a, v);
    NoQuoteInside(fold, a, v + QUOTE);
    assert QUOTE + (v + QUOTE) == Quoted(v);
    assert w == Anywhere ==> a in Scope(w, [a]);
    assert w != Anywhere ==> Scope(w, [a]) == [];
  }

  // ----- The tests the renderer writes -----

  ghost predicate SomeTag(tags: seq<string>, p: string -> bool) {
    exists t :: t in tags && p(t)
  }

  ghost predicate AllTags(tags: seq<string>) {
    forall t | t in tags :: IsTag(t)
  }

  /** The text around the tags matches: a separator, or a bracket with a quote on the right side. */
  predicate AroundMatches(fold: Folding, w: Where, n: nat, sep: string, v: string) {
    || (n > 1 && Matches(fold, w, sep, v))
    || ((w == AtEnd || w == Anywhere) && Matches(fold, w, "[", v))
    || ((w == AtStart || w == Anywhere) && Matches(fold, w, "]", v))
  }

  lemma {:induction false} RunsAreQuoteFree(tags: seq<string>, sep: string)
    requires AllTags(tags) && IsSeparator(sep)
    ensures AllQuoteFree(Runs(tags, sep))
  {
    InsideHolds(tags, sep);
  }

  /** The runs in scope are the tags, the separator if there are several, and the brackets on their sides. */
  lemma ScopeHolds(w: Where, tags: seq<string>, sep: string, s: string)
    requires tags != []
    ensures s in Scope(w, Runs(tags, sep)) <==>
      || s in tags || (|tags| > 1 && s == sep)
      || ((w == AtEnd || w == Anywhere) && s == "[") || ((w == AtStart || w == Anywhere) && s == "]")
  {
    hide Inside;
    InsideHolds(tags, sep);
    var inside, runs := Inside(tags, sep), Runs(tags, sep);
    assert runs[1..] == inside + ["]"] && runs[..|runs| - 1] == ["["] + inside && runs[1..|runs| - 1] == inside;
  }

  /** LIKE on the JSON text of a list: some tag matches, or else the text around the tags does. */
  lemma LikeFinds(fold: Folding, w: Where, tags: seq<string>, sep: string, v: string)
    requires Separates(fold) && IsSeparator(sep) && AllTags(tags) && Plain(v) && Unescaped(v)
    requires w == Anywhere ==> tags != []
    ensures Like(fold, Pattern(w, v), Json(tags, sep)) <==>
      SomeTag(tags, t => Matches(fold, w, t, v)) || (tags != [] && AroundMatches(fold, w, |tags|, sep, v))
  {
    hide Like, Matches, Separates, Scope, Inside, Run;
    CoreIsPlain(w, v);
    LikeSearch(fold, Core(w, v), Json(tags, sep));
    if tags == [] {
      NoMembers(fold, w, sep, v);
    } else {
      var runs := Runs(tags, sep);
      JsonIsRuns(tags, sep);
      RunsAreQuoteFree(tags, sep);
      RunFinds(fold, w, runs, v);
      forall s
        ensures s in Scope(w, runs) <==>
          || s in tags || (|tags| > 1 && s == sep)
          || ((w == AtEnd || w == Anywhere) && s == "[") || ((w == AtStart || w == Anywhere) && s == "]")
      {
        ScopeHolds(w, tags, sep, s);
      }
    }
  }

  lemma CoreIsPlain(w: Where, v: string)
    requires Plain(v)
    ensures Plain(Core(w, v))
  {
  }

  lemma NoMembers(fold: Folding, w: Where, sep: string, v: string)
    requires Separates(fold) && w != Anywhere
    ensures !Occurs(fold, Json([], sep), Core(w, v))
  {
    OneRun(fold, w, "[]", v);
    assert Json([], sep) == "[]";
    assert Scope(w, ["[]"]) == [];
  }

  // ----- When the tests are right -----

  const EXACTLY: Folding := (c: char) => c

  /** Where pattern and text agree but for wildcards, LIKE holds. */
  lemma {:induction false} LikePointwise(fold: Folding, p: string, t: string, rest: string)
    requires |p| == |t| && forall i | 0 <= i < |p| :: IsWild(p[i]) || p[i] == t[i]
    ensures Like(fold, p + "%", t + rest)
  {
    if p == "" {
      assert p + "%" == "%";
      LikeAnything(fold, t + rest);
    } else {
      LikePointwise(fold, p[1..], t[1..], rest);
      assert (p + "%")[1..] == p[1..] + "%" && (t + rest)[1..] == t[1..] + rest;
    }
  }

  lemma WildMatchesOther(fold: Folding, w: Where, sep: string, v: string, other: string)
    requires |v| == |other| && forall i | 0 <= i < |v| :: IsWild(v[i]) || v[i] == other[i]
    ensures Like(fold, Pattern(w, v), Json([other], sep))
  {
    hide Like;
    var p, t, text := Core(w, v), Core(w, other), Json([other], sep);
    var k := if w == Whole || w == AtStart then 1 else 2;
    var rest := text[k + |t|..];
    assert text == "[" + QUOTE + other + QUOTE + "]";
    assert text[k..] == t + rest;
    LikePointwise(fold, p, t, rest);
    assert Pattern(w, v)[1..] == p + "%";
    LikeFrom(fold, Pattern(w, v), text, k);
  }

  lemma LikeFrom(fold: Folding, pattern: string, text: string, k: nat)
    requires pattern != "" && pattern[0] == '%' && k <= |text| && Like(fold, pattern[1..], text[k..])
    ensures Like(fold, pattern, text)
  {
  }

  // ----- Foldings -----

  function AsciiLower(c: char): char {
    if 'A' <= c <= 'Z' then c - 'A' + 'a' else c
  }

  /** Comparing characters exactly, or by ASCII lower case as SQLite's LIKE does, separates. */
  lemma CommonFoldingsSeparate()
    ensures Separates(EXACTLY) && Separates(AsciiLower)
  {
  }
}
