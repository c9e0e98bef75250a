/** Schema versions, the window of migration scripts an upgrade applies, and how upgrades compose. */
module Migrator {
  import opened Texts

  // ----- Versions -----

  /** A part of a pre-release: a number or a name. */
  datatype Identifier = Numeric(n: nat) | Named(name: string)

  /** A version as Semantic Versioning 2.0.0 writes it; build metadata plays no part. One that cannot be read is below
      all others. */
  datatype Version = Malformed | Numbered(major: nat, minor: nat, patch: nat, pre: seq<Identifier> := [])

  const DEFAULT := Numbered(0, 0, 0)
  const MINIMUM := Numbered(0, 22, 0)

  function Sign(n: int): int { if n < 0 then -1 else if n > 0 then 1 else 0 }

  function CompareText(a: string, b: string): int {
    if a == "" || b == "" then Sign(|a| - |b|)
    else if a[0] != b[0] then Sign(a[0] as int - b[0] as int)
    else CompareText(a[1..], b[1..])
  }

  function CompareIdentifier(a: Identifier, b: Identifier): int {
    if a.Numeric? && b.Numeric? then Sign(a.n - b.n)
    else if a.Numeric? then -1
    else if b.Numeric? then 1
    else CompareText(a.name, b.name)
  }

  /** Identifier by identifier; of two lists that agree as far as they go the shorter is lower. */
  function CompareIdentifiers(a: seq<Identifier>, b: seq<Identifier>): int {
    if a == [] || b == [] then Sign(|a| - |b|)
    else if CompareIdentifier(a[0], b[0]) != 0 then CompareIdentifier(a[0], b[0])
    else CompareIdentifiers(a[1..], b[1..])
  }

  /** A pre-release is below its release. */
  function ComparePre(a: seq<Identifier>, b: seq<Identifier>): int {
    if a == [] || b == [] then Sign(|b| - |a|) else CompareIdentifiers(a, b)
  }

  /** Precedence by section 11 of Semantic Versioning 2.0.0. */
  function Compare(a: Version, b: Version): int {
    if a.Malformed? then (if b.Malformed? then 0 else -1)
    else if b.Malformed? then 1
    else if a.major != b.major then Sign(a.major - b.major)
    else if a.minor != b.minor then Sign(a.minor - b.minor)
    else if a.patch != b.patch then Sign(a.patch - b.patch)
    else ComparePre(a.pre, b.pre)
  }

  predicate Greater(a: Version, b: Version) { Compare(a, b) > 0 }

  predicate AtLeast(a: Version, b: Version) { Compare(a, b) > -1 }

  /** How three values compare in a total order. */
  ghost predicate OrderLaw(ab: int, ba: int, bc: int, ac: int, equal: bool) {
    ab == -ba && (ab == 0 <==> equal) && (ab >= 0 && bc >= 0 ==> ac >= 0) && (ab > 0 && bc >= 0 ==> ac > 0)
    && (ab >= 0 && bc > 0 ==> ac > 0) && -1 <= ab <= 1
  }

  lemma {:induction false} TextOrder(a: string, b: string, c: string)
    ensures OrderLaw(CompareText(a, b), CompareText(b, a), CompareText(b, c), CompareText(a, c), a == b)
  {
    if a != "" && b != "" {
      TextOrder(a[1..], b[1..], if c == "" then "" else c[1..]);
      assert a == [a[0]] + a[1..] && b == [b[0]] + b[1..];
    }
  }

  lemma IdentifierOrder(a: Identifier, b: Identifier, c: Identifier)
    ensures OrderLaw(CompareIdentifier(a, b), CompareIdentifier(b, a), CompareIdentifier(b, c), CompareIdentifier(a, c),
                     a == b)
  {
    hide CompareText;
    if a.Named? && b.Named? {
      TextOrder(a.name, b.name, if c.Named? then c.name else "");
    }
  }

  lemma {:induction false} IdentifiersOrder(a: seq<Identifier>, b: seq<Identifier>, c: seq<Identifier>)
    ensures OrderLaw(CompareIdentifiers(a, b), CompareIdentifiers(b, a), CompareIdentifiers(b, c),
                     CompareIdentifiers(a, c), a == b)
  {
    hide CompareIdentifier;
    if a != [] && b != [] {
      IdentifiersOrder(a[1..], b[1..], if c == [] then [] else c[1..]);
      IdentifierOrder(a[0], b[0], if c == [] then a[0] else c[0]);
      IdentifierOrder(b[0], a[0], if c == [] then a[0] else c[0]);
      assert a == [a[0]] + a[1..] && b == [b[0]] + b[1..];
    }
  }

  lemma PreOrder(a: seq<Identifier>, b: seq<Identifier>, c: seq<Identifier>)
    ensures OrderLaw(ComparePre(a, b), ComparePre(b, a), ComparePre(b, c), ComparePre(a, c), a == b)
  {
    hide CompareIdentifiers;
    IdentifiersOrder(a, b, c);
  }

  /** Versions are totally ordered. */
  lemma CompareIsOrder(a: Version, b: Version, c: Version)
    ensures Compare(a, b) == -Compare(b, a) && (Compare(a, b) == 0 <==> a == b)
    ensures AtLeast(a, b) && AtLeast(b, c) ==> AtLeast(a, c)
    ensures AtLeast(a, b) <==> !Greater(b, a)
  {
    hide ComparePre;
    if a.Numbered? && b.Numbered? {
      PreOrder(a.pre, b.pre, if c.Numbered? then c.pre else []);
    }
  }

  // ----- Precedence -----

  /** Major, minor and patch are compared as numbers, in this order; then a pre-release is below its release. What
      cannot be read is below everything. */
  lemma Precedence(a: Version, b: Version)
    requires a.Numbered? && b.Numbered?
    ensures a.major > b.major ==> Greater(a, b)
    ensures a.major == b.major && a.minor > b.minor ==> Greater(a, b)
    ensures a.major == b.major && a.minor == b.minor && a.patch > b.patch ==> Greater(a, b)
    ensures a.major == b.major && a.minor == b.minor && a.patch == b.patch ==>
      (a.pre == [] && b.pre != [] ==> Greater(a, b)) &&
      (a.pre != [] && b.pre != [] ==> (Greater(a, b) <==> CompareIdentifiers(a.pre, b.pre) > 0))
    ensures Greater(a, Malformed) && !Greater(Malformed, a)
  {
  }

  /** Pre-releases are decided by the first identifier in which they differ: numbers by value and below names, names in
      the order of their characters. If there is none, the longer one is higher. */
  lemma {:induction false} PreReleasePrecedence(p: seq<Identifier>, a: seq<Identifier>, b: seq<Identifier>)
    requires b != [] && (a == [] || a[0] != b[0])
    ensures CompareIdentifiers(p + b, p + a) > 0 <==>
      || a == []
      || (a[0].Numeric? && b[0].Numeric? && a[0].n < b[0].n)
      || (a[0].Numeric? && b[0].Named?)
      || (a[0].Named? && b[0].Named? && Precedes(a[0].name, b[0].name))
  {
    if p == [] {
      assert p + a == a && p + b == b;
      if a != [] && a[0].Named? && b[0].Named? {
        TextOrder(b[0].name, a[0].name, "");
        TextPrecedes(b[0].name, a[0].name);
      }
    } else {
      PreReleasePrecedence(p[1..], a, b);
      Peel(p, a);
      Peel(p, b);
      IdentifierOrder(p[0], p[0], p[0]);
    }
  }

  lemma {:induction false} TextPrecedes(a: string, b: string)
    ensures CompareText(a, b) > 0 <==> Precedes(b, a)
  {
    if a != "" && b != "" {
      TextPrecedes(a[1..], b[1..]);
    }
  }

  /** The order of strings: at the first character in which they differ, or by length. */
  lemma {:induction false} FirstDifference(p: string, a: string, b: string)
    requires a == "" || b == "" || a[0] != b[0]
    ensures Precedes(p + a, p + b) <==> b != "" && (a == "" || a[0] < b[0])
  {
    PrecedesAfter(p, a, b);
  }

  // ----- The window -----

  /** A migration script; its version is missing if the number in its name cannot be read. */
  datatype Script = Script(path: string, version: Option<Version>)

  function OrDefault(recorded: Option<Version>): Version { if recorded.None? then DEFAULT else recorded.value }

  predicate IsEmpty(recorded: Option<Version>) { recorded.None? || recorded.value == DEFAULT }

  predicate ShouldApply(file: Version, current: Option<Version>, target: Version) {
    Greater(file, OrDefault(current)) && AtLeast(target, file)
  }

  predicate Readable(scripts: seq<Script>) { forall s | s in scripts :: s.version.Some? }

  /** The script lies above `from` and not above `to`. */
  predicate Between(s: Script, from: Version, to: Version) {
    s.version.Some? && Greater(s.version.value, from) && AtLeast(to, s.version.value)
  }

  /** The scripts that an upgrade applies, in the order in which it applies them. */
  function Applied(scripts: seq<Script>, from: Version, to: Version): seq<Script> {
    if scripts == [] then []
    else
      var front, last := scripts[..|scripts| - 1], scripts[|scripts| - 1];
      if Between(last, from, to) then Applied(front, from, to) + [last] else Applied(front, from, to)
  }

  lemma {:induction false} AppliedIs(scripts: seq<Script>, from: Version, to: Version)
    ensures forall s :: s in Applied(scripts, from, to) <==> s in scripts && Between(s, from, to)
  {
    hide Between;
    if scripts != [] {
      AppliedIs(scripts[..|scripts| - 1], from, to);
      assert forall s :: s in scripts <==> s in scripts[..|scripts| - 1] || s == scripts[|scripts| - 1];
    }
  }

  /** The scripts of an upgrade: those above the old version that are not above the new one. */
  lemma WindowIs(scripts: seq<Script>, from: Version, to: Version)
    ensures forall s :: s in Applied(scripts, from, to) <==>
      s in scripts && s.version.Some? && Compare(s.version.value, from) > 0 && Compare(s.version.value, to) <= 0
  {
    AppliedIs(scripts, from, to);
    forall s: Script | s.version.Some?
      ensures Compare(to, s.version.value) == -Compare(s.version.value, to)
    {
      CompareIsOrder(to, s.version.value, to);
    }
  }

  /** At the newest version there is nothing to apply. */
  lemma NothingLeft(scripts: seq<Script>, v: Version)
    ensures Applied(scripts, v, v) == []
  {
    forall i | 0 <= i < |scripts|
      ensures !Between(scripts[i], v, v)
    {
      if scripts[i].version.Some? {
        CompareIsOrder(v, scripts[i].version.value, v);
      }
    }
    NoneAbove(scripts, v, v);
  }

  /** Every window splits at any version inside it. */
  lemma Splits(s: Script, v0: Version, v1: Version, v2: Version)
    requires AtLeast(v1, v0) && AtLeast(v2, v1)
    ensures Between(s, v0, v2) <==> Between(s, v0, v1) || Between(s, v1, v2)
    ensures !(Between(s, v0, v1) && Between(s, v1, v2))
  {
    if s.version.Some? {
      var x := s.version.value;
      CompareIsOrder(v1, x, v0);
      CompareIsOrder(v2, v1, x);
      GreaterStill(x, v1, v0);
    }
  }

  lemma GreaterStill(a: Version, b: Version, c: Version)
    requires AtLeast(b, c)
    ensures Greater(a, b) ==> Greater(a, c)
  {
    hide Compare;
    CompareIsOrder(b, c, a);
    CompareIsOrder(c, a, b);
    CompareIsOrder(b, a, c);
  }

  /** Upgrading in two steps applies the same scripts as upgrading at once, each as often. */
  lemma {:induction false} SameScripts(scripts: seq<Script>, v0: Version, v1: Version, v2: Version)
    requires AtLeast(v1, v0) && AtLeast(v2, v1)
    ensures multiset(Applied(scripts, v0, v1)) + multiset(Applied(scripts, v1, v2)) ==
      multiset(Applied(scripts, v0, v2))
  {
    hide Between, AtLeast;
    if scripts != [] {
      var front, last := scripts[..|scripts| - 1], scripts[|scripts| - 1];
      SameScripts(front, v0, v1, v2);
      Splits(last, v0, v1, v2);
    }
  }

  /** No script of the second upgrade comes before one of the first. */
  ghost predicate InOrder(scripts: seq<Script>, v0: Version, v1: Version, v2: Version) {
    forall i, j | 0 <= i < j < |scripts| :: !(Between(scripts[i], v1, v2) && Between(scripts[j], v0, v1))
  }

  lemma AppliedStep(scripts: seq<Script>, from: Version, to: Version)
    requires scripts != []
    ensures var front, last := scripts[..|scripts| - 1], scripts[|scripts| - 1];
      Applied(scripts, from, to) ==
        if Between(last, from, to) then Applied(front, from, to) + [last] else Applied(front, from, to)
  {
  }

  lemma {:induction false} ComposesIfInOrder(scripts: seq<Script>, v0: Version, v1: Version, v2: Version)
    requires AtLeast(v1, v0) && AtLeast(v2, v1) && InOrder(scripts, v0, v1, v2)
    ensures Applied(scripts, v0, v1) + Applied(scripts, v1, v2) == Applied(scripts, v0, v2)
  {
    if scripts != [] {
      hide Between, AtLeast, Applied;
      var n := |scripts| - 1;
      var front, last := scripts[..n], scripts[n];
      ComposesIfInOrder(front, v0, v1, v2);
      Splits(last, v0, v1, v2);
      AppliedStep(scripts, v0, v1);
      AppliedStep(scripts, v1, v2);
      AppliedStep(scripts, v0, v2);
      if Between(last, v0, v1) {
        NoneAbove(front, v1, v2);
        assert Applied(front, v0, v1) + [] == Applied(front, v0, v1);
      }
      assert (Applied(front, v0, v1) + Applied(front, v1, v2)) + [last] ==
             Applied(front, v0, v1) + (Applied(front, v1, v2) + [last]);
    }
  }

  lemma {:induction false} NoneAbove(scripts: seq<Script>, v1: Version, v2: Version)
    requires forall i | 0 <= i < |scripts| :: !Between(scripts[i], v1, v2)
    ensures Applied(scripts, v1, v2) == []
  {
    if scripts != [] {
      NoneAbove(scripts[..|scripts| - 1], v1, v2);
    }
  }

  /** Where a script stands among those an upgrade applies. */
  lemma {:induction false} Position(scripts: seq<Script>, from: Version, to: Version, i: nat, j: nat)
    returns (p: nat, q: nat)
    requires i < j < |scripts| && Between(scripts[i], from, to) && Between(scripts[j], from, to)
    ensures p < q < |Applied(scripts, from, to)|
    ensures Applied(scripts, from, to)[p] == scripts[i] && Applied(scripts, from, to)[q] == scripts[j]
  {
    hide Between;
    var n := |scripts| - 1;
    var front := scripts[..n];
    if j < n {
      p, q := Position(front, from, to, i, j);
    } else {
      AppliedIs(front, from, to);
      assert front[i] == scripts[i] && scripts[i] in front;
      p :| 0 <= p < |Applied(front, from, to)| && Applied(front, from, to)[p] == scripts[i];
      q := |Applied(front, from, to)|;
    }
  }

  /** Two upgrades apply the same sequence of scripts as one exactly if no script of the second comes before one of the
      first. */
  lemma Composition(scripts: seq<Script>, v0: Version, v1: Version, v2: Version)
    requires AtLeast(v1, v0) && AtLeast(v2, v1)
    ensures Applied(scripts, v0, v1) + Applied(scripts, v1, v2) == Applied(scripts, v0, v2) <==>
      InOrder(scripts, v0, v1, v2)
  {
    hide Between, AtLeast, Applied;
    if InOrder(scripts, v0, v1, v2) {
      ComposesIfInOrder(scripts, v0, v1, v2);
    } else {
      var i, j :| 0 <= i < j < |scripts| && Between(scripts[i], v1, v2) && Between(scripts[j], v0, v1);
      Splits(scripts[i], v0, v1, v2);
      Splits(scripts[j], v0, v1, v2);
      var p, q := Position(scripts, v0, v2, i, j);
      if Applied(scripts, v0, v1) + Applied(scripts, v1, v2) == Applied(scripts, v0, v2) {
        OutOfOrder(scripts, v0, v1, v2, p, q);
      }
    }
  }

  lemma OutOfOrder(scripts: seq<Script>, v0: Version, v1: Version, v2: Version, p: nat, q: nat)
    requires AtLeast(v1, v0) && AtLeast(v2, v1) && p < q < |Applied(scripts, v0, v2)|
    requires Applied(scripts, v0, v1) + Applied(scripts, v1, v2) == Applied(scripts, v0, v2)
    ensures !(Between(Applied(scripts, v0, v2)[p], v1, v2) && Between(Applied(scripts, v0, v2)[q], v0, v1))
  {
    hide Between, AtLeast, Applied;
    var first, second, whole := Applied(scripts, v0, v1), Applied(scripts, v1, v2), Applied(scripts, v0, v2);
    AppliedIs(scripts, v0, v1);
    AppliedIs(scripts, v1, v2);
    Splits(whole[p], v0, v1, v2);
    Splits(whole[q], v0, v1, v2);
    if q < |first| {
      assert whole[p] == first[p] && first[p] in first;
    } else {
      assert whole[q] == second[q - |first|] && second[q - |first|] in second;
    }
  }

  // ----- Many upgrades -----

  ghost predicate InVersionOrder(scripts: seq<Script>) {
    forall i, j | 0 <= i < j < |scripts| && scripts[i].version.Some? && scripts[j].version.Some? ::
      AtLeast(scripts[j].version.value, scripts[i].version.value)
  }

  lemma VersionOrderSuffices(scripts: seq<Script>, v0: Version, v1: Version, v2: Version)
    requires InVersionOrder(scripts)
    ensures InOrder(scripts, v0, v1, v2)
  {
    forall i, j | 0 <= i < j < |scripts|
      ensures !(Between(scripts[i], v1, v2) && Between(scripts[j], v0, v1))
    {
      if scripts[i].version.Some? && scripts[j].version.Some? {
        CompareIsOrder(scripts[j].version.value, scripts[i].version.value, v1);
        CompareIsOrder(v1, scripts[j].version.value, scripts[i].version.value);
      }
    }
  }

  ghost predicate Rising(versions: seq<Version>) {
    forall i | 0 < i < |versions| :: AtLeast(versions[i], versions[i - 1])
  }

  /** What a database sees that is upgraded from each version to the next. */
  function Path(scripts: seq<Script>, versions: seq<Version>): seq<Script> {
    if |versions| < 2 then []
    else
      var n := |versions| - 1;
      Path(scripts, versions[..n]) + Applied(scripts, versions[n - 1], versions[n])
  }

  lemma {:induction false} RisingIsMonotone(versions: seq<Version>)
    requires Rising(versions) && versions != []
    ensures AtLeast(versions[|versions| - 1], versions[0])
  {
    var n := |versions| - 1;
    CompareIsOrder(versions[0], versions[0], versions[0]);
    if n > 0 {
      RisingIsMonotone(versions[..n]);
      CompareIsOrder(versions[n], versions[n - 1], versions[0]);
    }
  }

  /** However many releases lie between, a database that follows them applies the scripts of the whole way at once. */
  lemma {:induction false} ReleasesCompose(scripts: seq<Script>, versions: seq<Version>)
    requires InVersionOrder(scripts) && Rising(versions) && versions != []
    ensures Path(scripts, versions) == Applied(scripts, versions[0], versions[|versions| - 1])
  {
    hide Applied, InVersionOrder, AtLeast;
    var n := |versions| - 1;
    if n == 0 {
      NothingLeft(scripts, versions[0]);
    } else {
      var front := versions[..n];
      ReleasesCompose(scripts, front);
      RisingIsMonotone(front);
      assert AtLeast(versions[n], versions[n - 1]);
      VersionOrderSuffices(scripts, versions[0], versions[n - 1], versions[n]);
      Composition(scripts, versions[0], versions[n - 1], versions[n]);
    }
  }

  // ----- The newest version -----

  ghost predicate IsNewest(scripts: seq<Script>, v: Version) {
    && AtLeast(v, DEFAULT) && (v == DEFAULT || exists s :: s in scripts && s.version == Some(v))
    && forall s | s in scripts && s.version.Some? :: AtLeast(v, s.version.value)
  }

  lemma NewestUnique(scripts: seq<Script>, v: Version, w: Version)
    requires IsNewest(scripts, v) && IsNewest(scripts, w)
    ensures v == w
  {
    CompareIsOrder(v, w, v);
    assert AtLeast(v, w) by {
      if w != DEFAULT {
        var s :| s in scripts && s.version == Some(w);
      }
    }
    assert AtLeast(w, v) by {
      if v != DEFAULT {
        var s :| s in scripts && s.version == Some(v);
      }
    }
  }

  /** The scripts of an earlier release: those not above its version. */
  function UpTo(scripts: seq<Script>, v: Version): seq<Script> {
    if scripts == [] then []
    else
      var front, last := scripts[..|scripts| - 1], scripts[|scripts| - 1];
      if last.version.Some? && AtLeast(v, last.version.value) then UpTo(front, v) + [last] else UpTo(front, v)
  }

  /** Upgrading with the earlier release applies what the later one would apply up to the same version. */
  lemma {:induction false} EarlierRelease(scripts: seq<Script>, v0: Version, v1: Version)
    ensures Applied(UpTo(scripts, v1), v0, v1) == Applied(scripts, v0, v1)
  {
    if scripts != [] {
      hide Applied, AtLeast, Greater;
      var front, last := scripts[..|scripts| - 1], scripts[|scripts| - 1];
      EarlierRelease(front, v0, v1);
      AppliedStep(scripts, v0, v1);
      if last.version.Some? && AtLeast(v1, last.version.value) {
        var some := UpTo(front, v1) + [last];
        assert some[..|some| - 1] == UpTo(front, v1) && some[|some| - 1] == last;
        AppliedStep(some, v0, v1);
      }
    }
  }

  // ----- Versions in paths -----

  /** The part of a file name before the first double underscore. */
  function BeforeSplit(name: string): string {
    if name == "" then ""
    else if |name| >= 2 && name[0] == '_' && name[1] == '_' then ""
    else [name[0]] + BeforeSplit(name[1..])
  }

  /** A number without leading zeros. */
  predicate IsNumber(s: string) { s != "" && AllDigits(s) && (s[0] == '0' ==> s == "0") }

  /** The text before the first `c`, and what follows it if there is one. */
  function Cut(s: string, c: char): (string, Option<string>) {
    if s == "" then ("", None)
    else if s[0] == c then ("", Some(s[1..]))
    else ([s[0]] + Cut(s[1..], c).0, Cut(s[1..], c).1)
  }

  lemma {:induction false} CutWithout(s: string, c: char)
    requires c !in s
    ensures Cut(s, c) == (s, None)
  {
    if s != "" {
      CutWithout(s[1..], c);
      assert [s[0]] + s[1..] == s;
    }
  }

  predicate IsIdentifier(s: string) {
    s != "" && forall c | c in s :: IsDigit(c) || 'A' <= c <= 'Z' || 'a' <= c <= 'z' || c == '-'
  }

  function Identified(s: string): Identifier { if AllDigits(s) then Numeric(Decimal(s)) else Named(s) }

  /** Reading `major.minor.patch` with a pre-release and build metadata; without those, minor and patch may be
      missing. */
  function ParseVersion(text: string): Version {
    var (body, build) := Cut(text, '+');
    var (core, pre) := Cut(body, '-');
    var parts, ids := Split(core, '.'), if pre.Some? then Split(pre.value, '.') else [];
    if && |parts| <= 3 && (forall i | 0 <= i < |parts| :: IsNumber(parts[i]))
       && (pre.Some? || build.Some? ==> |parts| == 3)
       && (forall id | id in ids :: IsIdentifier(id) && (AllDigits(id) ==> IsNumber(id)))
       && (build.Some? ==> forall id | id in Split(build.value, '.') :: IsIdentifier(id))
    then Numbered(Decimal(parts[0]), if |parts| > 1 then Decimal(parts[1]) else 0,
                  if |parts| > 2 then Decimal(parts[2]) else 0,
                  seq(|ids|, i requires 0 <= i < |ids| => Identified(ids[i])))
    else Malformed
  }

  /** The version of a script: its directory, and one more than the number its name begins with. */
  function VersionOf(path: string): Option<Version> {
    var elements := Split(path, '/');
    if |elements| < 2 then None
    else
      var dir, name := elements[|elements| - 2], elements[|elements| - 1];
      var patch := Atoi(BeforeSplit(name));
      if patch.None? then None else Some(ParseVersion(dir + "." + Itoa(patch.value + 1)))
  }

  function TwoDigits(n: nat): string
    requires n < 100
  {
    [DIGITS[n / 10], DIGITS[n % 10]]
  }

  /** How scripts are laid out: a directory for the minor version, a two-digit number, and a description. */
  function Layout(base: string, minor: nat, number: nat, description: string): string
    requires number < 100
  {
    base + "/" + ("0." + NatText(minor)) + "/" + (TwoDigits(number) + "__" + description)
  }

  lemma TwoDigitsIs(n: nat)
    requires n < 100
    ensures AllDigits(TwoDigits(n)) && Decimal(TwoDigits(n)) == n && Atoi(TwoDigits(n)) == Some(n)
    ensures n >= 10 ==> NatText(n) == TwoDigits(n)
  {
    var s := TwoDigits(n);
    assert s[..1] == [DIGITS[n / 10]] && s[..1][..0] == "";
    assert Decimal(s[..1]) == n / 10;
  }

  lemma {:induction false} NatTextIsNumber(n: nat)
    ensures IsNumber(NatText(n))
    ensures n > 0 ==> NatText(n)[0] != '0'
  {
    if n >= 10 {
      NatTextIsNumber(n / 10);
      assert NatText(n)[0] == NatText(n / 10)[0];
    }
  }

  // ----- Texts of versions -----

  function IdentifierText(id: Identifier): string {
    match id
    case Numeric(n) => NatText(n)
    case Named(name) => name
  }

  function PreText(ids: seq<Identifier>): string
    requires ids != []
  {
    if |ids| == 1 then IdentifierText(ids[0]) else IdentifierText(ids[0]) + "." + PreText(ids[1..])
  }

  function VersionText(v: Version): string
    requires v.Numbered?
  {
    NatText(v.major) + "." + NatText(v.minor) + "." + NatText(v.patch) +
    if v.pre == [] then "" else "-" + PreText(v.pre)
  }

  /** A name that a version may hold: letters, digits and dashes, not only digits. */
  predicate Writable(id: Identifier) { id.Named? ==> IsIdentifier(id.name) && !AllDigits(id.name) }

  lemma WritableText(id: Identifier)
    requires Writable(id)
    ensures var t := IdentifierText(id);
      && IsIdentifier(t) && (AllDigits(t) ==> IsNumber(t)) && Identified(t) == id && '.' !in t && '+' !in t
  {
    if id.Numeric? {
      NatTextIsNumber(id.n);
      DecimalOfText(id.n);
    }
  }

  lemma {:induction false} PreSplits(ids: seq<Identifier>)
    requires ids != [] && forall id | id in ids :: Writable(id)
    ensures '+' !in PreText(ids)
    ensures |Split(PreText(ids), '.')| == |ids|
    ensures forall i | 0 <= i < |ids| :: Split(PreText(ids), '.')[i] == IdentifierText(ids[i])
  {
    hide IdentifierText, Split, Writable;
    var t := IdentifierText(ids[0]);
    assert ids[0] in ids;
    WritableText(ids[0]);
    SplitWithout(t, '.');
    if |ids| > 1 {
      PreSplits(ids[1..]);
      SplitConcat(t, '.', PreText(ids[1..]));
    }
  }

  lemma {:induction false} CutAt(a: string, c: char, b: string)
    requires c !in a
    ensures Cut(a + [c] + b, c) == (a, Some(b))
  {
    var s := a + [c] + b;
    if a == "" {
      assert s[1..] == b;
    } else {
      CutAt(a[1..], c, b);
      assert s[1..] == a[1..] + [c] + b && [a[0]] + a[1..] == a;
    }
  }

  lemma CoreSplits(v: Version)
    requires v.Numbered?
    ensures var core := NatText(v.major) + "." + NatText(v.minor) + "." + NatText(v.patch);
      && Split(core, '.') == [NatText(v.major), NatText(v.minor), NatText(v.patch)]
      && '+' !in core && '-' !in core
  {
    hide Split, NatText, IsNumber, AllDigits;
    var a, b, c := NatText(v.major), NatText(v.minor), NatText(v.patch);
    NatTextIsNumber(v.major);
    NatTextIsNumber(v.minor);
    NatTextIsNumber(v.patch);
    DigitsOnly(a);
    DigitsOnly(b);
    DigitsOnly(c);
    SplitConcat(a + "." + b, '.', c);
    SplitConcat(a, '.', b);
    SplitWithout(a, '.');
    SplitWithout(b, '.');
    SplitWithout(c, '.');
  }

  /** Every version reads back from its text. */
  lemma VersionReadsBack(v: Version)
    requires v.Numbered? && forall id | id in v.pre :: Writable(id)
    ensures ParseVersion(VersionText(v)) == v
  {
    hide Split, NatText, IsNumber, AllDigits, Decimal, Cut, PreText, IdentifierText, IsIdentifier, Identified, Writable;
    var core, text := NatText(v.major) + "." + NatText(v.minor) + "." + NatText(v.patch), VersionText(v);
    CoreSplits(v);
    NumbersRead(v);
    if v.pre == [] {
      assert text == core;
      CutWithout(text, '+');
      CutWithout(text, '-');
    } else {
      PreSplits(v.pre);
      assert text == core + "-" + PreText(v.pre);
      CutWithout(text, '+');
      CutAt(core, '-', PreText(v.pre));
      var ids := Split(PreText(v.pre), '.');
      forall i | 0 <= i < |ids|
        ensures IsIdentifier(ids[i]) && (AllDigits(ids[i]) ==> IsNumber(ids[i])) && Identified(ids[i]) == v.pre[i]
      {
        assert v.pre[i] in v.pre;
        WritableText(v.pre[i]);
      }
      assert seq(|ids|, i requires 0 <= i < |ids| => Identified(ids[i])) == v.pre;
    }
  }

  lemma NumbersRead(v: Version)
    requires v.Numbered?
    ensures IsNumber(NatText(v.major)) && IsNumber(NatText(v.minor)) && IsNumber(NatText(v.patch))
    ensures Decimal(NatText(v.major)) == v.major && Decimal(NatText(v.minor)) == v.minor
    ensures Decimal(NatText(v.patch)) == v.patch
  {
    hide NatText, IsNumber, Decimal, AllDigits;
    NatTextIsNumber(v.major);
    NatTextIsNumber(v.minor);
    NatTextIsNumber(v.patch);
    DecimalOfText(v.major);
    DecimalOfText(v.minor);
    DecimalOfText(v.patch);
  }

  lemma ParseNumbered(minor: nat, patch: nat)
    ensures ParseVersion("0." + NatText(minor) + "." + NatText(patch)) == Numbered(0, minor, patch)
  {
    hide ParseVersion;
    var v := Numbered(0, minor, patch);
    VersionReadsBack(v);
    assert NatText(0) == "0";
    assert VersionText(v) == "0." + NatText(minor) + "." + NatText(patch);
  }

  lemma DigitsOnly(s: string)
    ensures IsNumber(s) ==> AllDigits(s)
    ensures AllDigits(s) ==> '.' !in s && '/' !in s && '_' !in s && '+' !in s && '-' !in s
  {
  }

  lemma BeforeSplitOf(n: nat, description: string)
    requires n < 100
    ensures BeforeSplit(TwoDigits(n) + "__" + description) == TwoDigits(n)
  {
    var d := TwoDigits(n);
    var s := d + "__" + description;
    assert s[1..] == [d[1]] + "__" + description && s[1..][1..] == "__" + description;
    assert BeforeSplit("__" + description) == "";
    assert BeforeSplit(s[1..]) == [d[1]] + BeforeSplit(s[1..][1..]);
  }

  /** The version of a script that is laid out so. */
  lemma VersionOfLayout(base: string, minor: nat, number: nat, description: string)
    requires number < 100 && '/' !in description
    ensures VersionOf(Layout(base, minor, number, description)) == Some(Numbered(0, minor, number + 1))
  {
    hide Split, Atoi, BeforeSplit, ParseVersion, TwoDigits, NatText, AllDigits, Decimal, IsNumber;
    var dir, name := "0." + NatText(minor), TwoDigits(number) + "__" + description;
    NatTextIsNumber(minor);
    TwoDigitsIs(number);
    DigitsOnly(NatText(minor));
    DigitsOnly(TwoDigits(number));
    SplitConcat(base + "/" + dir, '/', name);
    SplitConcat(base, '/', dir);
    SplitWithout(dir, '/');
    SplitWithout(name, '/');
    BeforeSplitOf(number, description);
    var elements := Split(Layout(base, minor, number, description), '/');
    assert elements == Split(base, '/') + [dir] + [name];
    ParseNumbered(minor, number + 1);
  }

  // ----- The order of paths -----

  /** The order of strings that paths are sorted by. */
  predicate Precedes(a: string, b: string) {
    b != "" && (a == "" || a[0] < b[0] || (a[0] == b[0] && Precedes(a[1..], b[1..])))
  }

  lemma {:induction false} PrecedesAfter(p: string, a: string, b: string)
    ensures Precedes(p + a, p + b) <==> Precedes(a, b)
  {
    if p == "" {
      assert p + a == a && p + b == b;
    } else {
      PrecedesAfter(p[1..], a, b);
      assert (p + a)[1..] == p[1..] + a && (p + b)[1..] == p[1..] + b;
    }
  }

  lemma DigitOrder(a: nat, b: nat)
    requires a < 10 && b < 10
    ensures DIGITS[a] < DIGITS[b] <==> a < b
    ensures DIGITS[a] == DIGITS[b] <==> a == b
  {
  }

  lemma TwoDigitsOrder(m: nat, x: string, n: nat, y: string)
    requires m < 100 && n < 100
    ensures Precedes(TwoDigits(m) + x, TwoDigits(n) + y) <==> m < n || (m == n && Precedes(x, y))
  {
    hide Precedes;
    var a, b := TwoDigits(m) + x, TwoDigits(n) + y;
    DigitOrder(m / 10, n / 10);
    DigitOrder(m % 10, n % 10);
    assert a[1..] == [DIGITS[m % 10]] + x && b[1..] == [DIGITS[n % 10]] + y;
    assert a[1..][1..] == x && b[1..][1..] == y;
    PrecedesStep(a, b);
    PrecedesStep(a[1..], b[1..]);
  }

  lemma PrecedesStep(a: string, b: string)
    requires a != "" && b != ""
    ensures Precedes(a, b) <==> a[0] < b[0] || (a[0] == b[0] && Precedes(a[1..], b[1..]))
  {
  }

  /** Scripts with two-digit minor versions sort by version. */
  lemma LayoutSorts(base: string, m: nat, i: nat, x: string, n: nat, j: nat, y: string)
    requires 10 <= m < 100 && i < 100 && 10 <= n < 100 && j < 100
    requires Precedes(Layout(base, m, i, x), Layout(base, n, j, y))
    ensures AtLeast(Numbered(0, n, j + 1), Numbered(0, m, i + 1))
  {
    hide Precedes, TwoDigits, NatText;
    var a, b := TwoDigits(i) + ("__" + x), TwoDigits(j) + ("__" + y);
    var p := base + "/" + "0.";
    TwoDigitsIs(m);
    TwoDigitsIs(n);
    assert Layout(base, m, i, x) == p + (TwoDigits(m) + ("/" + a));
    assert Layout(base, n, j, y) == p + (TwoDigits(n) + ("/" + b));
    PrecedesAfter(p, TwoDigits(m) + ("/" + a), TwoDigits(n) + ("/" + b));
    TwoDigitsOrder(m, "/" + a, n, "/" + b);
    PrecedesAfter("/", a, b);
    TwoDigitsOrder(i, "__" + x, j, "__" + y);
  }

  ghost predicate IsLaidOut(base: string, s: Script) {
    exists minor: nat, number: nat, description: string ::
      minor < 100 && number < 100 && '/' !in description && s.path == Layout(base, minor, number, description)
  }

  /** The scripts of a release: laid out as above, sorted by path, with the versions of their paths. */
  ghost predicate IsRelease(base: string, scripts: seq<Script>) {
    && (forall s | s in scripts :: IsLaidOut(base, s) && s.version == VersionOf(s.path))
    && forall i, j | 0 <= i < j < |scripts| :: Precedes(scripts[i].path, scripts[j].path)
  }

  /** The last version that a script with a one-digit minor version can have. */
  const LAST_ONE_DIGIT := Numbered(0, 9, 100)

  lemma LaidOutOrder(base: string, s: Script, t: Script, v0: Version)
    requires IsLaidOut(base, s) && IsLaidOut(base, t) && Precedes(s.path, t.path)
    requires s.version == VersionOf(s.path) && t.version == VersionOf(t.path) && AtLeast(v0, LAST_ONE_DIGIT)
    ensures s.version.Some? && t.version.Some?
    ensures Greater(s.version.value, v0) && Greater(t.version.value, v0) ==> AtLeast(t.version.value, s.version.value)
  {
    hide Precedes, VersionOf, Layout;
    var m: nat, i: nat, x: string :| m < 100 && i < 100 && '/' !in x && s.path == Layout(base, m, i, x);
    var n: nat, j: nat, y: string :| n < 100 && j < 100 && '/' !in y && t.path == Layout(base, n, j, y);
    VersionOfLayout(base, m, i, x);
    VersionOfLayout(base, n, j, y);
    if 10 <= m && 10 <= n {
      LayoutSorts(base, m, i, x, n, j, y);
    }
  }

  /** From the last one-digit version on, upgrading a release in two steps is upgrading at once. */
  lemma ReleaseComposes(base: string, scripts: seq<Script>, v0: Version, v1: Version, v2: Version)
    requires IsRelease(base, scripts) && AtLeast(v0, LAST_ONE_DIGIT) && AtLeast(v1, v0) && AtLeast(v2, v1)
    ensures Applied(scripts, v0, v1) + Applied(scripts, v1, v2) == Applied(scripts, v0, v2)
  {
    hide IsLaidOut, VersionOf, Precedes, Applied;
    forall i, j | 0 <= i < j < |scripts|
      ensures !(Between(scripts[i], v1, v2) && Between(scripts[j], v0, v1))
    {
      var s, t := scripts[i], scripts[j];
      assert s in scripts && t in scripts;
      LaidOutOrder(base, s, t, v0);
      GreaterStill(s.version.value, v1, v0);
      CompareIsOrder(v1, s.version.value, v0);
      CompareIsOrder(v1, t.version.value, s.version.value);
    }
    Composition(scripts, v0, v1, v2);
  }

  /** Every version that a database may be upgraded from is such a version. */
  lemma SupportedComposes(base: string, scripts: seq<Script>, v0: Version, v1: Version, v2: Version)
    requires IsRelease(base, scripts) && Supported(Some(v0), v2) && AtLeast(v1, v0) && AtLeast(v2, v1)
    ensures Applied(scripts, v0, v1) + Applied(scripts, v1, v2) == Applied(scripts, v0, v2)
  {
    hide IsRelease, Applied;
    CompareIsOrder(v0, MINIMUM, LAST_ONE_DIGIT);
    ReleaseComposes(base, scripts, v0, v1, v2);
  }

  /** A release with the last script before 0.10 and the first of it: 0.10 sorts before 0.9. */
  function Inversion(base: string): seq<Script> {
    [Script(Layout(base, 10, 0, "a.sql"), Some(Numbered(0, 10, 1))),
     Script(Layout(base, 9, 99, "b.sql"), Some(LAST_ONE_DIGIT))]
  }

  lemma LaidOut(base: string, minor: nat, number: nat, description: string)
    requires minor < 100 && number < 100 && '/' !in description
    ensures var s := Script(Layout(base, minor, number, description), Some(Numbered(0, minor, number + 1)));
      IsLaidOut(base, s) && s.version == VersionOf(s.path)
  {
    VersionOfLayout(base, minor, number, description);
  }

  lemma TenBeforeDigit(base: string, number: nat, x: string, digit: nat, other: nat, y: string)
    requires number < 100 && 2 <= digit < 10 && other < 100
    ensures Precedes(Layout(base, 10, number, x), Layout(base, digit, other, y))
  {
    hide Precedes, TwoDigits, NatText;
    var p, a, b := base + "/" + "0.", "/" + (TwoDigits(number) + "__" + x), "/" + (TwoDigits(other) + "__" + y);
    assert NatText(10) == "10" && NatText(digit) == [DIGITS[digit]] by { SmallTexts(digit); }
    assert Layout(base, 10, number, x) == p + ("10" + a) && Layout(base, digit, other, y) == p + ([DIGITS[digit]] + b);
    PrecedesAfter(p, "10" + a, [DIGITS[digit]] + b);
    DigitOrder(1, digit);
    PrecedesStep("10" + a, [DIGITS[digit]] + b);
  }

  lemma SmallTexts(digit: nat)
    requires digit < 10
    ensures NatText(10) == "10" && NatText(digit) == [DIGITS[digit]]
  {
    assert NatText(1) == "1";
  }

  /** Upgrades from a version compose on every release if and only if the version is not below the last one-digit
      one. */
  lemma ComposesFromExactly(base: string, v0: Version)
    requires v0.Numbered?
    ensures AtLeast(v0, LAST_ONE_DIGIT) <==>
      forall scripts, v1, v2 | IsRelease(base, scripts) && AtLeast(v1, v0) && AtLeast(v2, v1) ::
        Applied(scripts, v0, v1) + Applied(scripts, v1, v2) == Applied(scripts, v0, v2)
  {
    hide IsRelease, Applied, Layout, Precedes;
    if AtLeast(v0, LAST_ONE_DIGIT) {
      forall scripts, v1, v2 | IsRelease(base, scripts) && AtLeast(v1, v0) && AtLeast(v2, v1)
        ensures Applied(scripts, v0, v1) + Applied(scripts, v1, v2) == Applied(scripts, v0, v2)
      {
        ReleaseComposes(base, scripts, v0, v1, v2);
      }
    } else {
      var scripts, v1, v2 := Inversion(base), LAST_ONE_DIGIT, Numbered(0, 10, 1);
      InversionIsRelease(base);
      Composition(scripts, v0, v1, v2);
      assert Between(scripts[0], v1, v2) && Between(scripts[1], v0, v1);
      assert Applied(scripts, v0, v1) + Applied(scripts, v1, v2) != Applied(scripts, v0, v2);
    }
  }

  lemma InversionIsRelease(base: string)
    ensures IsRelease(base, Inversion(base))
  {
    hide IsLaidOut, VersionOf, Layout, Precedes;
    LaidOut(base, 10, 0, "a.sql");
    LaidOut(base, 9, 99, "b.sql");
    TenBeforeDigit(base, 0, "a.sql", 9, 99, "b.sql");
  }

  /** Two scripts that are there: a database that went through 0.2.1 has seen them in another order than one that is
      upgraded at once. Both versions lie below the least that may be upgraded. */
  lemma OneDigitMinors()
    ensures var base := "migration/sqlite";
      var late := Script(Layout(base, 10, 0, "activity.sql"), Some(Numbered(0, 10, 1)));
      var early := Script(Layout(base, 2, 0, "user_role.sql"), Some(Numbered(0, 2, 1)));
      && IsRelease(base, [late, early])
      && Applied([late, early], DEFAULT, Numbered(0, 10, 1)) == [late, early]
      && Applied([late, early], DEFAULT, Numbered(0, 2, 1)) +
         Applied([late, early], Numbered(0, 2, 1), Numbered(0, 10, 1)) == [early, late]
  {
    hide Precedes, Applied, IsLaidOut, VersionOf, Layout;
    var base := "migration/sqlite";
    var late := Script(Layout(base, 10, 0, "activity.sql"), Some(Numbered(0, 10, 1)));
    var early := Script(Layout(base, 2, 0, "user_role.sql"), Some(Numbered(0, 2, 1)));
    LaidOut(base, 10, 0, "activity.sql");
    LaidOut(base, 2, 0, "user_role.sql");
    TenBeforeDigit(base, 0, "activity.sql", 2, 0, "user_role.sql");
    AppliedPair(late, early, DEFAULT, Numbered(0, 10, 1));
    AppliedPair(late, early, DEFAULT, Numbered(0, 2, 1));
    AppliedPair(late, early, Numbered(0, 2, 1), Numbered(0, 10, 1));
  }

  lemma AppliedPair(s: Script, t: Script, from: Version, to: Version)
    ensures Applied([s, t], from, to) ==
      (if Between(s, from, to) then [s] else []) + (if Between(t, from, to) then [t] else [])
  {
    hide Between;
    assert [s, t][..1] == [s] && [s][..0] == [];
    assert Applied([s], from, to) == if Between(s, from, to) then [s] else [];
  }

  // ----- Migrating a database -----

  /** A recorded version that this release can upgrade from. */
  predicate Supported(recorded: Option<Version>, newest: Version) {
    !IsEmpty(recorded) && AtLeast(recorded.value, MINIMUM) && AtLeast(newest, recorded.value)
  }

  /** Where nothing is recorded, or 0.0.0, nothing was applied: every release script up to the target is due. Without
      scripts the newest version is 0.0.0. */
  lemma NothingRecorded(recorded: Option<Version>, s: Script, major: nat, minor: nat, patch: nat, to: Version)
    requires s.version == Some(Numbered(major, minor, patch))
    ensures IsEmpty(recorded) <==> recorded == None || recorded == Some(Numbered(0, 0, 0))
    ensures IsEmpty(recorded) ==>
      (Between(s, OrDefault(recorded), to) <==> (major > 0 || minor > 0 || patch > 0) && AtLeast(to, s.version.value))
    ensures IsNewest([], to) <==> to == Numbered(0, 0, 0)
  {
  }

  /** Of the releases those from 0.22.0 on, up to this one. */
  lemma SupportedReleases(major: nat, minor: nat, patch: nat, newest: Version)
    ensures Supported(Some(Numbered(major, minor, patch)), newest) <==>
      (major > 0 || minor >= 22) && AtLeast(newest, Numbered(major, minor, patch))
    ensures !Supported(None, newest)
  {
  }

  /** What a migration works on: the recorded version, and the incremental scripts that were committed, in order. */
  datatype Database = Database(recorded: Option<Version>, executed: seq<Script>)

  /** One start of the server: the scripts the database rejects, and whether recording the version fails. */
  datatype Attempt = Attempt(fails: Script -> bool, recordFails: bool)

  predicate Commits(a: Attempt, window: seq<Script>) { forall s | s in window :: !a.fails(s) }

  predicate Completes(a: Attempt, window: seq<Script>) { Commits(a, window) && !a.recordFails }

  /** The database after one attempt: scripts are committed before the version is recorded. */
  function Attempted(scripts: seq<Script>, newest: Version, db: Database, a: Attempt): Database {
    var window := Applied(scripts, OrDefault(db.recorded), newest);
    if !Supported(db.recorded, newest) || !Greater(newest, db.recorded.value) || !Commits(a, window) then db
    else Database(if a.recordFails then db.recorded else Some(newest), db.executed + window)
  }

  function AfterAll(scripts: seq<Script>, newest: Version, db: Database, attempts: seq<Attempt>): Database {
    if attempts == [] then db
    else
      var n := |attempts| - 1;
      Attempted(scripts, newest, AfterAll(scripts, newest, db, attempts[..n]), attempts[n])
  }

  function Times(window: seq<Script>, n: nat): seq<Script> {
    if n == 0 then [] else Times(window, n - 1) + window
  }

  /** How many attempts commit the window. */
  function Committed(attempts: seq<Attempt>, window: seq<Script>): nat {
    if attempts == [] then 0
    else
      var n := |attempts| - 1;
      Committed(attempts[..n], window) + if Commits(attempts[n], window) then 1 else 0
  }

  /** As long as no attempt completes, each that commits applies the whole window once more. */
  lemma {:induction false} Retries(scripts: seq<Script>, newest: Version, db: Database, attempts: seq<Attempt>)
    requires Supported(db.recorded, newest) && Greater(newest, db.recorded.value)
    requires forall a | a in attempts :: !Completes(a, Applied(scripts, db.recorded.value, newest))
    ensures var window := Applied(scripts, db.recorded.value, newest);
      AfterAll(scripts, newest, db, attempts) ==
        Database(db.recorded, db.executed + Times(window, Committed(attempts, window)))
  {
    hide Applied, Commits, Compare;
    var window := Applied(scripts, db.recorded.value, newest);
    if attempts == [] {
      assert db.executed + [] == db.executed;
    } else {
      var n := |attempts| - 1;
      Retries(scripts, newest, db, attempts[..n]);
      assert attempts[n] in attempts;
      var k := Committed(attempts[..n], window);
      Associates(db.executed, Times(window, k), window);
    }
  }

  lemma {:induction false} TimesLength(window: seq<Script>, n: nat)
    requires window != []
    ensures |Times(window, n)| >= n && (n > 0 ==> |Times(window, n)| >= |window|)
  {
    if n > 0 {
      TimesLength(window, n - 1);
    }
  }

  lemma {:induction false} NoneCommitted(attempts: seq<Attempt>, window: seq<Script>)
    ensures Committed(attempts, window) == 0 <==> forall a | a in attempts :: !Commits(a, window)
  {
    hide Commits;
    if attempts != [] {
      var n := |attempts| - 1;
      NoneCommitted(attempts[..n], window);
      assert forall a :: a in attempts <==> a in attempts[..n] || a == attempts[n];
    }
  }

  /** Once the newest version is recorded, attempts change nothing. */
  lemma {:induction false} Settled(scripts: seq<Script>, newest: Version, db: Database, attempts: seq<Attempt>)
    requires db.recorded == Some(newest)
    ensures AfterAll(scripts, newest, db, attempts) == db
  {
    hide Applied;
    if attempts != [] {
      Settled(scripts, newest, db, attempts[..|attempts| - 1]);
      CompareIsOrder(newest, newest, newest);
    }
  }

  lemma {:induction false} AfterConcat(scripts: seq<Script>, newest: Version, db: Database, a: seq<Attempt>,
                                       b: seq<Attempt>)
    ensures AfterAll(scripts, newest, db, a + b) == AfterAll(scripts, newest, AfterAll(scripts, newest, db, a), b)
    decreases |b|
  {
    hide Attempted;
    if b == [] {
      assert a + b == a;
    } else {
      var n := |b| - 1;
      assert (a + b)[..|a| + n] == a + b[..n];
      AfterConcat(scripts, newest, db, a, b[..n]);
    }
  }

  /** However often the server is started, after the first attempt that completes the newest version is recorded, and
      the window was applied exactly once if and only if no earlier attempt committed it and failed to record it. */
  lemma AppliedOnce(scripts: seq<Script>, newest: Version, db: Database, failed: seq<Attempt>, last: Attempt,
                    later: seq<Attempt>)
    requires Supported(db.recorded, newest) && Greater(newest, db.recorded.value)
    requires var window := Applied(scripts, db.recorded.value, newest);
      Completes(last, window) && forall a | a in failed :: !Completes(a, window)
    ensures var window, after :=
        Applied(scripts, db.recorded.value, newest), AfterAll(scripts, newest, db, failed + [last] + later);
      && after.recorded == Some(newest)
      && (after.executed == db.executed + window <==> window == [] || forall a | a in failed :: !Commits(a, window))
  {
    hide Applied, Compare;
    var window := Applied(scripts, db.recorded.value, newest);
    var k := Committed(failed, window);
    Retries(scripts, newest, db, failed);
    AfterConcat(scripts, newest, db, failed + [last], later);
    assert (failed + [last])[..|failed|] == failed;
    var done := AfterAll(scripts, newest, db, failed + [last]);
    assert done == Database(Some(newest), db.executed + Times(window, k) + window);
    Settled(scripts, newest, done, later);
    NoneCommitted(failed, window);
    if window == [] {
      TimesNothing(k);
    } else {
      TimesLength(window, k);
    }
    if k == 0 {
      assert db.executed + [] == db.executed;
    }
  }

  lemma {:induction false} TimesNothing(n: nat)
    ensures Times([], n) == []
  {
    if n > 0 {
      TimesNothing(n - 1);
    }
  }

  class Store {
    /** The scripts of this release in the order of their paths. */
    const scripts: seq<Script>
    var initialized: bool
    var recorded: Option<Version>
    /** The incremental scripts that were committed, in order. */
    var executed: seq<Script>

    constructor (scripts: seq<Script>, initialized: bool, recorded: Option<Version>, executed: seq<Script>)
      ensures this.scripts == scripts && this.initialized == initialized
      ensures this.recorded == recorded && this.executed == executed
    {
      this.scripts, this.initialized, this.recorded, this.executed := scripts, initialized, recorded, executed;
    }

    function Value(): Database
      reads this
    {
      Database(recorded, executed)
    }

    /** The greatest version of any script, or an error if some version cannot be read. */
    method GetCurrentSchemaVersion() returns (v: Option<Version>)
      ensures v.Some? <==> Readable(scripts)
      ensures v.Some? ==> IsNewest(scripts, v.value)
    {
      var current := DEFAULT;
      for i := 0 to |scripts|
        invariant Readable(scripts[..i]) && IsNewest(scripts[..i], current)
      {
        if scripts[i].version.None? {
          assert scripts[i] in scripts;
          return None;
        }
        var file := scripts[i].version.value;
        CompareIsOrder(file, current, DEFAULT);
        NewestStep(scripts, i, current);
        if Greater(file, current) {
          current := file;
        }
      }
      assert scripts[..|scripts|] == scripts;
      v := Some(current);
    }

    /** Runs the scripts of the window in one transaction; `fails` are the statements the database rejects. */
    method ApplyMigrations(target: Version, fails: Script -> bool, recordFails: bool) returns (ok: bool)
      requires Readable(scripts)
      modifies this`recorded, this`executed
      ensures var window := Applied(scripts, OrDefault(old(recorded)), target);
        && ok == (!recordFails && forall s | s in window :: !fails(s))
        && recorded == (if ok then Some(target) else old(recorded))
        && executed == if exists s :: s in window && fails(s) then old(executed) else old(executed) + window
    {
      var tx: seq<Script> := [];
      for i := 0 to |scripts|
        invariant recorded == old(recorded) && executed == old(executed)
        invariant tx == Applied(scripts[..i], OrDefault(recorded), target)
        invariant forall s | s in tx :: !fails(s)
      {
        var s := scripts[i];
        assert scripts[..i + 1][..i] == scripts[..i] && s in scripts;
        if ShouldApply(s.version.value, recorded, target) {
          if fails(s) {
            AppliedIs(scripts, OrDefault(recorded), target);
            return false;
          }
          tx := tx + [s];
        }
      }
      assert scripts[..|scripts|] == scripts;
      executed := executed + tx;
      if recordFails {
        return false;
      }
      recorded := Some(target);
      ok := true;
    }

    /** Brings the database to the newest version of this release, or changes nothing but what an error leaves behind.
        The recorded version never goes back. */
    method Migrate(latestFails: bool, fails: Script -> bool, recordFails: bool) returns (ok: bool)
      modifies this
      ensures ok ==> Readable(scripts) && recorded.Some?
      ensures ok ==> IsNewest(scripts, recorded.value) && AtLeast(recorded.value, MINIMUM)
      ensures old(recorded).Some? && old(initialized) ==> recorded.Some? && AtLeast(recorded.value, old(recorded).value)
      ensures ok ==> executed == old(executed) +
                       if old(initialized) then Applied(scripts, OrDefault(old(recorded)), recorded.value) else []
      ensures forall newest | old(initialized) && Readable(scripts) && IsNewest(scripts, newest) ::
        var window := Applied(scripts, OrDefault(old(recorded)), newest);
        && (ok <==> Supported(old(recorded), newest) &&
                    (Greater(newest, OrDefault(old(recorded))) ==> !recordFails && forall s | s in window :: !fails(s)))
        && (!ok ==> recorded == old(recorded))
        && (!ok && executed != old(executed) ==> recordFails && executed == old(executed) + window)
      ensures !Readable(scripts) ==> !ok && executed == old(executed)
      ensures !Readable(scripts) && old(initialized) ==> recorded == old(recorded)
      ensures forall newest | old(initialized) && Readable(scripts) && IsNewest(scripts, newest) ::
        Value() == Attempted(scripts, newest, old(Value()), Attempt(fails, recordFails))
    {
      hide Applied, Compare;
      if !initialized {
        if latestFails {
          return false;
        }
        initialized := true;
        var newest := GetCurrentSchemaVersion();
        if newest.None? || recordFails {
          return false;
        }
        recorded := newest;
      }
      ghost var before := recorded;
      if IsEmpty(recorded) || !AtLeast(recorded.value, MINIMUM) {
        Same(recorded);
        return false;
      }
      var current := GetCurrentSchemaVersion();
      if current.None? {
        Same(recorded);
        return false;
      }
      CompareIsOrder(current.value, recorded.value, MINIMUM);
      OnlyNewest(scripts, current.value);
      if Greater(recorded.value, current.value) {
        Same(recorded);
        return false;
      }
      if Greater(current.value, recorded.value) {
        ok := ApplyMigrations(current.value, fails, recordFails);
        Same(recorded);
        FreshIsNewest(scripts, before.value, current.value);
      } else {
        Same(recorded);
        NothingLeft(scripts, current.value);
        ok := true;
      }
    }
  }

  lemma Same(v: Option<Version>)
    ensures v.Some? ==> AtLeast(v.value, v.value)
  {
    if v.Some? {
      CompareIsOrder(v.value, v.value, v.value);
    }
  }

  lemma OnlyNewest(scripts: seq<Script>, v: Version)
    requires IsNewest(scripts, v)
    ensures forall w | IsNewest(scripts, w) :: w == v
  {
    forall w | IsNewest(scripts, w)
      ensures w == v
    {
      NewestUnique(scripts, v, w);
    }
  }

  lemma FreshIsNewest(scripts: seq<Script>, v: Version, w: Version)
    requires IsNewest(scripts, w)
    ensures IsNewest(scripts, v) ==> v == w && Applied(scripts, v, w) == []
  {
    hide Applied;
    if IsNewest(scripts, v) {
      NewestUnique(scripts, v, w);
      NothingLeft(scripts, w);
    }
  }

  lemma NewestStep(scripts: seq<Script>, i: nat, current: Version)
    requires i < |scripts| && IsNewest(scripts[..i], current) && scripts[i].version.Some?
    ensures var file := scripts[i].version.value;
      IsNewest(scripts[..i + 1], if Greater(file, current) then file else current)
  {
    var s, file := scripts[i], scripts[i].version.value;
    var before, after := scripts[..i], scripts[..i + 1];
    assert after == before + [s];
    assert s in after;
    forall x | x in before && x.version.Some?
      ensures Greater(file, current) ==> AtLeast(file, x.version.value)
    {
      CompareIsOrder(file, current, x.version.value);
    }
    CompareIsOrder(file, current, DEFAULT);
    CompareIsOrder(current, file, DEFAULT);
    CompareIsOrder(file, file, file);
    if current != DEFAULT {
      var x :| x in before && x.version == Some(current);
      assert x in after;
    }
  }
}
