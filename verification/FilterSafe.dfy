/** When LIKE on the JSON text of a list is a test of its tags. */
module FilterSafe {
  import opened Texts
  import opened FilterTags

  // ----- Reading the text of a list -----

  /** A place in the JSON text of a list that is not empty: before the bracket, before a quote that opens a tag, within
      a tag, after the quote that closes it, between a comma and its space, or at the end. */
  datatype Place = Open | Before | Within | After | Gap | Done

  predicate Here(sep: string, s: Place) { s == Gap ==> sep == ", " }

  function AfterComma(sep: string): Place { if sep == "," then Before else Gap }

  function Step(sep: string, s: Place, c: char): Option<Place> {
    match s
    case Open => if c == '[' then Some(Before) else None
    case Before => if c == '"' then Some(Within) else None
    case Within => if c == '"' then Some(After) else if IsTagRune(c) then Some(Within) else None
    case After => if c == ']' then Some(Done) else if c == ',' then Some(AfterComma(sep)) else None
    case Gap => if c == ' ' then Some(Before) else None
    case Done => None
  }

  function Walk(sep: string, s: Place, text: string): Option<Place>
    decreases |text|
  {
    if text == "" then Some(s)
    else
      var t := Step(sep, s, text[0]);
      if t.None? then None else Walk(sep, t.value, text[1..])
  }

  /** The text leads from a place to the end. */
  predicate Ends(sep: string, s: Place, text: string) { Walk(sep, s, text) == Some(Done) }

  lemma {:induction false} WalkOn(sep: string, s: Place, a: string, b: string)
    ensures Walk(sep, s, a + b) ==
      (if Walk(sep, s, a).None? then None else Walk(sep, Walk(sep, s, a).value, b))
    decreases |a|
  {
    if a == "" {
      assert a + b == b;
    } else {
      assert (a + b)[1..] == a[1..] + b;
      var t := Step(sep, s, a[0]);
      if t.Some? {
        WalkOn(sep, t.value, a[1..], b);
      }
    }
  }

  lemma {:induction false} TagWalks(sep: string, t: string)
    requires IsTag(t)
    ensures Walk(sep, Within, t) == Some(Within)
  {
    if t != "" {
      assert t[0] in t;
      TagWalks(sep, t[1..]);
    }
  }

  lemma SeparatorWalks(sep: string)
    requires IsSeparator(sep)
    ensures Walk(sep, After, sep) == Some(Before)
  {
    assert sep == "," || sep == "," + " ";
    WalkOn(sep, After, ",", " ");
  }

  lemma QuotedWalks(sep: string, t: string)
    requires IsTag(t)
    ensures Walk(sep, Before, Quoted(t)) == Some(After)
  {
    TagWalks(sep, t);
    WalkOn(sep, Before, QUOTE, t);
    WalkOn(sep, Before, QUOTE + t, QUOTE);
  }

  lemma {:induction false} MembersWalk(tags: seq<string>, sep: string)
    requires tags != [] && AllTags(tags) && IsSeparator(sep)
    ensures Walk(sep, Before, Members(tags, sep)) == Some(After)
  {
    var t := tags[0];
    assert t in tags;
    QuotedWalks(sep, t);
    if |tags| > 1 {
      MembersWalk(tags[1..], sep);
      SeparatorWalks(sep);
      WalkOn(sep, Before, Quoted(t), sep);
      WalkOn(sep, Before, Quoted(t) + sep, Members(tags[1..], sep));
    }
  }

  /** The text of a list leads from the start to the end, ... */
  lemma JsonEnds(tags: seq<string>, sep: string)
    requires tags != [] && AllTags(tags) && IsSeparator(sep)
    ensures Ends(sep, Open, Json(tags, sep))
  {
    MembersWalk(tags, sep);
    WalkOn(sep, Open, "[", Members(tags, sep));
    WalkOn(sep, Open, "[" + Members(tags, sep), "]");
  }

  /** ... and every text that does is that of a list. */
  ghost function Listing(sep: string, text: string): (tags: seq<string>)
    requires IsSeparator(sep) && Ends(sep, Open, text)
    ensures tags != [] && AllTags(tags) && Json(tags, sep) == text
  {
    hide Walk, Members;
    Bracket(sep, text);
    var tags := Reading(sep, text[1..]);
    Associates("[", Members(tags, sep), "]");
    tags
  }

  lemma Bracket(sep: string, text: string)
    requires Ends(sep, Open, text)
    ensures text != "" && text == "[" + text[1..] && Ends(sep, Before, text[1..])
  {
  }

  function TagAt(sep: string, text: string): (t: string)
    requires Ends(sep, Within, text)
    ensures IsTag(t) && |t| < |text| && text[..|t| + 1] == t + QUOTE && Ends(sep, After, text[|t| + 1..])
  {
    if text[0] == '"' then "" else
      var t := TagAt(sep, text[1..]);
      assert text == [text[0]] + text[1..];
      assert text[|t| + 2..] == text[1..][|t| + 1..];
      [text[0]] + t
  }

  /** After a tag the list ends or a separator leads to the next. */
  lemma AfterTag(sep: string, rest: string)
    requires IsSeparator(sep) && Ends(sep, After, rest)
    ensures rest == "]" || (sep <= rest && Ends(sep, Before, rest[|sep|..]))
  {
    var on := rest[1..];
    if rest[0] == ']' {
      assert Ends(sep, Done, on);
      assert on == "";
    } else {
      assert Ends(sep, AfterComma(sep), on);
      if sep == ", " {
        assert on[0] == ' ' && on[1..] == rest[2..] && Ends(sep, Before, on[1..]);
      }
    }
  }

  lemma TagThenRest(sep: string, text: string)
    requires Ends(sep, Before, text)
    ensures Ends(sep, Within, text[1..])
    ensures var t := TagAt(sep, text[1..]);
      |t| + 2 <= |text| && text == Quoted(t) + text[|t| + 2..] && Ends(sep, After, text[|t| + 2..])
  {
    var t := TagAt(sep, text[1..]);
    Cut(text, t);
    assert text[|t| + 2..] == text[1..][|t| + 1..];
  }

  lemma Cut(text: string, t: string)
    requires text != "" && text[0] == '"' && |t| + 1 < |text| && text[1..][..|t| + 1] == t + QUOTE
    ensures text == Quoted(t) + text[|t| + 2..]
  {
    assert text[..|t| + 2] == QUOTE + text[1..][..|t| + 1];
  }

  ghost function Reading(sep: string, text: string): (tags: seq<string>)
    requires IsSeparator(sep) && Ends(sep, Before, text)
    ensures tags != [] && AllTags(tags) && Members(tags, sep) + "]" == text
    decreases |text|
  {
    hide Walk, IsTag;
    TagThenRest(sep, text);
    var t := TagAt(sep, text[1..]);
    var rest := text[|t| + 2..];
    AfterTag(sep, rest);
    if rest == "]" then [t] else
      var tags := Reading(sep, rest[|sep|..]);
      OneMoreMember(t, sep, tags, rest);
      [t] + tags
  }

  lemma OneMoreMember(t: string, sep: string, tags: seq<string>, rest: string)
    requires tags != [] && sep <= rest && Members(tags, sep) + "]" == rest[|sep|..]
    ensures Members([t] + tags, sep) + "]" == Quoted(t) + rest
  {
    assert ([t] + tags)[1..] == tags;
    assert rest == sep + (Members(tags, sep) + "]");
    Associates(Quoted(t) + sep, Members(tags, sep), "]");
    Associates(Quoted(t), sep, Members(tags, sep) + "]");
  }

  // ----- Following a pattern -----

  /** A character that leads from one place to another. */
  function Letter(sep: string, s: Place, t: Place): Option<char> {
    match (s, t)
    case (Open, Before) => Some('[')
    case (Before, Within) => Some('"')
    case (Within, Within) => Some('x')
    case (Within, After) => Some('"')
    case (After, Done) => Some(']')
    case (After, _) => if t == AfterComma(sep) then Some(',') else None
    case (Gap, Before) => Some(' ')
    case _ => None
  }

  lemma LetterLeads(sep: string, s: Place, t: Place)
    ensures Letter(sep, s, t).Some? <==> exists c :: Step(sep, s, c) == Some(t)
    ensures Letter(sep, s, t).Some? ==> Step(sep, s, Letter(sep, s, t).value) == Some(t)
  {
  }

  predicate Reaches(s: Place, t: Place) { s == t || (s != Done && t != Open) }

  function ToWithin(sep: string, s: Place): (path: string)
    requires IsSeparator(sep) && Here(sep, s) && s != Done
    ensures Walk(sep, s, path) == Some(Within)
  {
    match s
    case Open => "[" + QUOTE
    case Before => QUOTE
    case Within => ""
    case After =>
      SeparatorWalks(sep);
      WalkOn(sep, After, sep, QUOTE);
      sep + QUOTE
    case Gap =>
      WalkOn(sep, Gap, " ", QUOTE);
      " " + QUOTE
  }

  function FromWithin(sep: string, t: Place): (path: string)
    requires IsSeparator(sep) && Here(sep, t) && t != Open
    ensures Walk(sep, Within, path) == Some(t)
  {
    match t
    case Before =>
      SeparatorWalks(sep);
      WalkOn(sep, Within, QUOTE, sep);
      QUOTE + sep
    case Within => ""
    case After => QUOTE
    case Gap =>
      WalkOn(sep, Within, QUOTE, ",");
      QUOTE + ","
    case Done =>
      WalkOn(sep, Within, QUOTE, "]");
      QUOTE + "]"
  }

  /** A text that leads from one place to another. */
  function Path(sep: string, s: Place, t: Place): (path: string)
    requires IsSeparator(sep) && Here(sep, s) && Here(sep, t) && Reaches(s, t)
    ensures Walk(sep, s, path) == Some(t)
  {
    if s == t then "" else
      WalkOn(sep, s, ToWithin(sep, s), FromWithin(sep, t));
      ToWithin(sep, s) + FromWithin(sep, t)
  }

  lemma {:induction false} WalkReaches(sep: string, s: Place, text: string)
    requires IsSeparator(sep) && Here(sep, s) && Walk(sep, s, text).Some?
    ensures Here(sep, Walk(sep, s, text).value) && Reaches(s, Walk(sep, s, text).value)
    decreases |text|
  {
    if text != "" {
      WalkReaches(sep, Step(sep, s, text[0]).value, text[1..]);
    }
  }

  /** From this place the text of some list goes on as the pattern says. */
  predicate Accepts(sep: string, s: Place, p: string)
    decreases |p|
  {
    if p == "" then true
    else if p[0] == '%' then exists t: Place :: Here(sep, t) && Reaches(s, t) && Accepts(sep, t, p[1..])
    else if p[0] == '_' then exists t: Place :: Letter(sep, s, t).Some? && Accepts(sep, t, p[1..])
    else
      var t := Step(sep, s, p[0]);
      t.Some? && Accepts(sep, t.value, p[1..])
  }

  /** Every character is a quote or stands for itself. */
  predicate Readable(p: string) {
    forall c | c in p :: c != '\\' && c >= ' '
  }

  lemma SameStep(fold: Folding, sep: string, s: Place, c: char, d: char)
    requires Separates(fold) && fold(c) == fold(d) && c != '\\' && c >= ' ' && Step(sep, s, d).Some?
    ensures Step(sep, s, c) == Step(sep, s, d)
  {
  }

  lemma {:induction false} FollowedIsAccepted(fold: Folding, sep: string, s: Place, p: string, text: string)
    requires Separates(fold) && IsSeparator(sep) && Readable(p) && Here(sep, s)
    requires Ends(sep, s, text) && Like(fold, p + "%", text)
    ensures Accepts(sep, s, p)
    decreases |p|
  {
    if p != "" {
      hide Separates, Here, Reaches, Letter;
      var rest := p[1..];
      assert (p + "%")[1..] == rest + "%" && p[0] in p;
      assert forall c | c in rest :: c in p;
      if p[0] == '%' {
        var k :| 0 <= k <= |text| && Like(fold, rest + "%", text[k..]);
        assert text == text[..k] + text[k..];
        WalkOn(sep, s, text[..k], text[k..]);
        WalkReaches(sep, s, text[..k]);
        FollowedIsAccepted(fold, sep, Walk(sep, s, text[..k]).value, rest, text[k..]);
      } else {
        var t := Step(sep, s, text[0]).value;
        LetterLeads(sep, s, t);
        assert Here(sep, t) by { StepHere(sep, s, text[0]); }
        FollowedIsAccepted(fold, sep, t, rest, text[1..]);
        if p[0] != '_' {
          SameStep(fold, sep, s, p[0], text[0]);
        }
      }
    }
  }

  lemma StepHere(sep: string, s: Place, c: char)
    requires IsSeparator(sep) && Step(sep, s, c).Some?
    ensures Here(sep, Step(sep, s, c).value)
  {
  }

  /** A text to the end that goes on as the pattern says. */
  ghost function Followed(fold: Folding, sep: string, s: Place, p: string): (text: string)
    requires IsSeparator(sep) && Here(sep, s) && Accepts(sep, s, p)
    ensures Ends(sep, s, text) && Like(fold, p + "%", text)
    decreases |p|
  {
    if p == "" then
      assert p + "%" == "%";
      var text := Path(sep, s, Done);
      LikeAnything(fold, text);
      text
    else
      assert (p + "%")[1..] == p[1..] + "%";
      if p[0] == '%' then
        var t: Place :| Here(sep, t) && Reaches(s, t) && Accepts(sep, t, p[1..]);
        var path, text := Path(sep, s, t), Followed(fold, sep, t, p[1..]);
        WalkOn(sep, s, path, text);
        assert (path + text)[|path|..] == text;
        LikeFrom(fold, p + "%", path + text, |path|);
        path + text
      else
        var t := Onward(sep, s, p);
        var c := if p[0] == '_' then Letter(sep, s, t).value else p[0];
        LetterLeads(sep, s, t);
        StepHere(sep, s, c);
        var text := Followed(fold, sep, t, p[1..]);
        assert ([c] + text)[1..] == text;
        [c] + text
  }

  ghost function Onward(sep: string, s: Place, p: string): (t: Place)
    requires p != "" && p[0] != '%' && Accepts(sep, s, p)
    ensures Accepts(sep, t, p[1..])
    ensures if p[0] == '_' then Letter(sep, s, t).Some? else Step(sep, s, p[0]) == Some(t)
  {
    if p[0] == '_' then
      var t: Place :| Letter(sep, s, t).Some? && Accepts(sep, t, p[1..]);
      t
    else Step(sep, s, p[0]).value
  }

  /** The test can find the text across the brackets, quotes and separators of a list. */
  predicate Fits(w: Where, sep: string, v: string) {
    exists s: Place :: Here(sep, s) && Accepts(sep, s, Core(w, v))
  }

  lemma CoreIsReadable(w: Where, v: string)
    requires Unescaped(v)
    ensures Readable(Core(w, v))
  {
  }

  /** What LIKE finds in the text of a list fits, ... */
  lemma FoundFits(fold: Folding, w: Where, tags: seq<string>, sep: string, v: string)
    requires Separates(fold) && IsSeparator(sep) && AllTags(tags) && tags != [] && Unescaped(v)
    requires Like(fold, Pattern(w, v), Json(tags, sep))
    ensures Fits(w, sep, v)
  {
    hide Separates, Json, Walk, Accepts, Core;
    var p, text := Core(w, v), Json(tags, sep);
    assert Pattern(w, v)[1..] == p + "%";
    var k :| 0 <= k <= |text| && Like(fold, p + "%", text[k..]);
    JsonEnds(tags, sep);
    assert text == text[..k] + text[k..];
    WalkOn(sep, Open, text[..k], text[k..]);
    WalkReaches(sep, Open, text[..k]);
    CoreIsReadable(w, v);
    FollowedIsAccepted(fold, sep, Walk(sep, Open, text[..k]).value, p, text[k..]);
  }

  /** ... and what fits is found in some list. */
  ghost function Fitting(fold: Folding, w: Where, sep: string, v: string): (tags: seq<string>)
    requires IsSeparator(sep) && Fits(w, sep, v)
    ensures tags != [] && AllTags(tags) && Like(fold, Pattern(w, v), Json(tags, sep))
  {
    hide Json, Walk, Accepts, Core, Path;
    var p := Core(w, v);
    var s: Place :| Here(sep, s) && Accepts(sep, s, p);
    var path, rest := Start(sep, s), Followed(fold, sep, s, p);
    WalkOn(sep, Open, path, rest);
    assert (path + rest)[|path|..] == rest && Pattern(w, v)[1..] == p + "%";
    LikeFrom(fold, Pattern(w, v), path + rest, |path|);
    Listing(sep, path + rest)
  }

  function Start(sep: string, s: Place): (path: string)
    requires IsSeparator(sep) && Here(sep, s)
    ensures Walk(sep, Open, path) == Some(s)
  {
    Path(sep, Open, s)
  }

  // ----- When the tests are right -----

  /** A text of tag runes holds no wildcard; another one cannot be found anywhere. */
  predicate Safe(w: Where, sep: string, v: string) {
    if IsTag(v) then Plain(v) else Unescaped(v) && !Fits(w, sep, v)
  }

  lemma {:induction false} AcceptsLess(sep: string, s: Place, a: string, b: string)
    requires Accepts(sep, s, a + b)
    ensures Accepts(sep, s, a)
    decreases |a|
  {
    if a != "" {
      assert (a + b)[1..] == a[1..] + b;
      forall t: Place | Accepts(sep, t, a[1..] + b)
        ensures Accepts(sep, t, a[1..])
      {
        AcceptsLess(sep, t, a[1..], b);
      }
    }
  }

  /** Where the test for a start is safe, so is that for a whole tag. */
  lemma StartSafeWholeSafe(sep: string, v: string)
    requires Safe(AtStart, sep, v)
    ensures Safe(Whole, sep, v)
  {
    hide Accepts;
    forall s: Place | Accepts(sep, s, Core(Whole, v))
      ensures Accepts(sep, s, Core(AtStart, v))
    {
      AcceptsLess(sep, s, Core(AtStart, v), QUOTE);
    }
  }

  /** The empty text is found around the tags only where it is found in a tag. */
  lemma EmptyMatches(fold: Folding, w: Where, tags: seq<string>, sep: string)
    requires IsSeparator(sep) && tags != []
    ensures AroundMatches(fold, w, |tags|, sep, "") ==> SomeTag(tags, t => Matches(fold, w, t, ""))
  {
    if w != Whole {
      assert OccursAt(fold, tags[0], "", 0) && OccursAt(fold, tags[0], "", |tags[0]|);
      assert tags[0] in tags && Matches(fold, w, tags[0], "");
    }
  }

  /** What matches in a text has all its characters there, up to folding. */
  lemma MatchHolds(fold: Folding, w: Where, s: string, v: string, i: nat) returns (j: nat)
    requires Matches(fold, w, s, v) && i < |v|
    ensures j < |s| && fold(s[j]) == fold(v[i])
  {
    var k: int := if w == AtEnd then |s| - |v| else 0;
    if w == Anywhere {
      k :| 0 <= k <= |s| && OccursAt(fold, s, v, k);
    }
    assert w != Whole ==> OccursAt(fold, s, v, k);
    j := k + i;
  }

  /** A tag is not found in punctuation. */
  lemma TagsNotAround(fold: Folding, w: Where, n: nat, sep: string, v: string)
    requires Separates(fold) && IsSeparator(sep) && IsTag(v) && v != ""
    ensures !AroundMatches(fold, w, n, sep, v)
  {
    hide Matches;
    assert v[0] in v;
    forall s | s == sep || s == "[" || s == "]"
      ensures !Matches(fold, w, s, v)
    {
      assert forall j | 0 <= j < |s| :: IsPunctuation(s[j]);
      if Matches(fold, w, s, v) {
        var j := MatchHolds(fold, w, s, v, 0);
      }
    }
  }

  /** A text with punctuation is not found in a tag. */
  lemma NoTagHolds(fold: Folding, w: Where, t: string, v: string)
    requires Separates(fold) && IsTag(t) && Unescaped(v) && !IsTag(v)
    ensures !Matches(fold, w, t, v)
  {
    hide Matches;
    assert forall i | 0 <= i < |v| :: v[i] in v;
    assert forall j | 0 <= j < |t| :: t[j] in t;
    if Matches(fold, w, t, v) {
      var i :| 0 <= i < |v| && !IsTagRune(v[i]);
      var j := MatchHolds(fold, w, t, v, i);
    }
  }

  /** Where the text is safe, LIKE on the JSON text is a quantifier over the tags. */
  lemma LikeIsSome(fold: Folding, w: Where, tags: seq<string>, sep: string, v: string)
    requires Separates(fold) && IsSeparator(sep) && AllTags(tags) && Safe(w, sep, v)
    requires w == Anywhere ==> tags != []
    ensures Like(fold, Pattern(w, v), Json(tags, sep)) <==> SomeTag(tags, t => Matches(fold, w, t, v))
  {
    hide Like, Matches, Separates, Json, Pattern, Fits;
    if !IsTag(v) {
      NeverFound(fold, w, tags, sep, v);
    } else {
      LikeFinds(fold, w, tags, sep, v);
      if v == "" && tags != [] {
        EmptyMatches(fold, w, tags, sep);
      } else if v != "" {
        TagsNotAround(fold, w, |tags|, sep, v);
      }
    }
  }

  lemma NeverFound(fold: Folding, w: Where, tags: seq<string>, sep: string, v: string)
    requires Separates(fold) && IsSeparator(sep) && AllTags(tags) && !IsTag(v) && Safe(w, sep, v)
    requires w == Anywhere ==> tags != []
    ensures !Like(fold, Pattern(w, v), Json(tags, sep)) && !SomeTag(tags, t => Matches(fold, w, t, v))
  {
    hide Like, Matches, Separates, Json, Pattern, Fits;
    forall t | t in tags
      ensures !Matches(fold, w, t, v)
    {
      NoTagHolds(fold, w, t, v);
    }
    if Like(fold, Pattern(w, v), Json(tags, sep)) {
      if tags == [] {
        NoQuoteFound(fold, w, sep, v);
      } else {
        FoundFits(fold, w, tags, sep, v);
      }
    }
  }

  /** Without a quote in the text the pattern is not found. */
  lemma {:induction false} NeedsQuote(fold: Folding, p: string, text: string)
    requires Separates(fold) && QuoteFree(text) && '"' in p
    ensures !Like(fold, p, text)
    decreases |p|
  {
    if p[0] == '%' {
      forall k | 0 <= k <= |text|
        ensures !Like(fold, p[1..], text[k..])
      {
        assert forall c | c in text[k..] :: c in text;
        NeedsQuote(fold, p[1..], text[k..]);
      }
    } else if p[0] == '"' {
      if text != "" {
        QuotesApart(fold, text, 0);
      }
    } else if text != "" {
      assert forall c | c in text[1..] :: c in text;
      NeedsQuote(fold, p[1..], text[1..]);
    }
  }

  lemma NoQuoteFound(fold: Folding, w: Where, sep: string, v: string)
    requires Separates(fold) && w != Anywhere
    ensures !Like(fold, Pattern(w, v), Json([], sep))
  {
    hide Like;
    var i := if w == AtEnd then 1 + |v| else 1;
    assert Pattern(w, v)[i] == '"';
    assert Json([], sep) == "[]";
    NeedsQuote(fold, Pattern(w, v), "[]");
  }

  /** The test is right on every list exactly if the text is safe. An underscore is a tag rune, so a tag such as `a_b`
      is also found where only `axb` is there, and `,` is found in every list of two tags. */
  lemma LikeExact(fold: Folding, w: Where, sep: string, v: string)
    requires Separates(fold) && IsSeparator(sep) && Unescaped(v)
    ensures Safe(w, sep, v) <==>
      forall tags | AllTags(tags) && (w == Anywhere ==> tags != []) ::
        Like(fold, Pattern(w, v), Json(tags, sep)) <==> SomeTag(tags, t => Matches(fold, w, t, v))
  {
    hide Like, Json, Pattern, Fits;
    if Safe(w, sep, v) {
      forall tags | AllTags(tags) && (w == Anywhere ==> tags != [])
        ensures Like(fold, Pattern(w, v), Json(tags, sep)) <==> SomeTag(tags, t => Matches(fold, w, t, v))
      {
        LikeIsSome(fold, w, tags, sep, v);
      }
    } else {
      var tags := Mistake(fold, w, sep, v);
      assert Like(fold, Pattern(w, v), Json(tags, sep)) && !SomeTag(tags, t => Matches(fold, w, t, v));
    }
  }

  /** A list on which the test is wrong: it finds a tag that is not there. */
  ghost function Mistake(fold: Folding, w: Where, sep: string, v: string): (tags: seq<string>)
    requires Separates(fold) && IsSeparator(sep) && Unescaped(v) && !Safe(w, sep, v)
    ensures AllTags(tags) && tags != [] && (IsTag(v) ==> forall t | t in tags :: |t| == |v|)
    ensures Like(fold, Pattern(w, v), Json(tags, sep)) && !SomeTag(tags, t => Matches(fold, w, t, v))
  {
    if IsTag(v) then Confusion(fold, w, sep, v) else Collision(fold, w, sep, v)
  }

  /** A list in which a text with punctuation is found. */
  ghost function Collision(fold: Folding, w: Where, sep: string, v: string): (tags: seq<string>)
    requires Separates(fold) && IsSeparator(sep) && Unescaped(v) && !IsTag(v) && Fits(w, sep, v)
    ensures AllTags(tags) && tags != []
    ensures Like(fold, Pattern(w, v), Json(tags, sep)) && !SomeTag(tags, t => Matches(fold, w, t, v))
  {
    hide Like, Json, Pattern, Fits, Matches, Separates;
    var tags := Fitting(fold, w, sep, v);
    assert !SomeTag(tags, t => Matches(fold, w, t, v)) by {
      forall t | t in tags
        ensures !Matches(fold, w, t, v)
      {
        NoTagHolds(fold, w, t, v);
      }
    }
    tags
  }

  /** A list in which a text with a wildcard is found wrongly. */
  ghost function Confusion(fold: Folding, w: Where, sep: string, v: string): (tags: seq<string>)
    requires Separates(fold) && IsTag(v) && !Plain(v)
    ensures AllTags(tags) && tags != [] && forall t | t in tags :: |t| == |v|
    ensures Like(fold, Pattern(w, v), Json(tags, sep)) && !SomeTag(tags, t => Matches(fold, w, t, v))
  {
    hide Like, Json, Pattern;
    var i :| 0 <= i < |v| && IsWild(v[i]);
    var other := v[i := 'x'];
    WildMatchesOther(fold, w, sep, v, other);
    assert fold(v[i]) != fold('x');
    assert !OccursAt(fold, other, v, 0);
    [other]
  }
}
