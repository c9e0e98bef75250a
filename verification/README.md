# MemoArk: verified models of its hard parts

Dafny models of six self-contained pieces of the MemoArk server, with proofs over all inputs, all runs or all reachable
states. `dafny verify dfyconfig.toml` checks the whole project.

| piece | modules |
|---|---|
| next activation of a cron schedule, and the parser of its fields | `Calendar`, `Bits`, `CronSpec`, `CronParser`, `CronFields` |
| cron run loop and the schedules it runs | `CronLoop`, `CronSchedule`, `ConstantDelay` |
| filter compiler: expression, condition tree, SQL text, arguments, query | `Cel`, `FilterBuild`, `FilterIr`, `FilterRender`, `FilterExact`, `FilterArgs`, `FilterNames`, `FilterStatement`, `FilterQuery`, `FilterPlain`, `FilterForms`, with `FilterSql` (SQL conditions, their reading and their three-valued meaning), `FilterTags` (LIKE on JSON text) and `FilterSafe` (when that is a test of the tags) |
| cascading deletion of a user | `CommentTree`, `UserDelete` |
| TTL cache and the caches of the store | `TtlCache`, `StoreCache` |
| schema migrations and memo import | `Migrator`, `MemoImport` |

`Arithmetic`, `Sets` and `Texts` hold what these share.

## Main results

- **Next activation.** `CronSpec.Next` runs the month, day, hour, minute and second loops with their restarts. It returns
  the least second after the given one that agrees with the schedule, within the year limit, or the zero time if there is
  none. The search invariant says that no second passed over is an activation and that finer fields are at their minimum.
  The code rounds to the minute with `Truncate`, which rounds in UTC. In a zone whose offset is not a whole number of
  minutes a search can therefore pass over activations. `CronSpec.Misses` is the exact condition, `CronSpec.HitsAgree` and
  `CronSpec.MissedMatch` are the two directions, and `CronSpec.SkewExample` is an instance.
- **Cron texts.** `CronFields.NextDescribed` goes from the texts of the six fields to the next activation: the first second
  after the given one that they describe, where an unstepped wildcard in either day field asks for a day that fits both
  and a day that fits either will do otherwise. What an element covers is stated for each form it is written in (a number,
  a range, a step, a name, a star), and `CronFields.DescriptorMeans` says which seconds the descriptors stand for. The
  calendar is fixed by the lengths of the months, the date of the next day and the weekday of two known dates.
- **Filters.** SQL conditions are token sequences with a precedence parser and Kleene semantics. `FilterRender.TreeMeaning`
  proves for every tree, row and database that the rendered text is read as a condition whose truth value is the Kleene
  value of what the tests of the leaves find, that constants fold to nothing or to `1 = 0` whatever else is NULL, and that
  the text cannot be read exactly if a search in an empty list survives folding (`tag in []` renders `()`).
- **Tags.** `FilterTags.LikeFinds` says what LIKE finds for a text without wildcards in the JSON text of a list: a tag that
  matches, or else the brackets and separators around the tags. `FilterSafe.LikeExact` says for every text when a test is
  right on all lists. A text of tag runes must hold no LIKE wildcard; an underscore is both. Any other text must fit
  nowhere: `,` is found in every list of two tags, and `a_,_b` is found in `["a","b"]`, where the wildcards stand for
  quotes. `FilterSafe.Fits` decides this by following the pattern through the places of a JSON array. `FilterExact`
  carries it to every kind of leaf.
- **From expressions to rows.** `FilterBuild.FiltersSelect` goes from CEL expressions through the built trees, the appended
  clause and its arguments to the rows that the bound text selects. Strings may be compared in any way that agrees with
  the database on the texts of the filters: `FilterBuild.StoredSelect` takes the comparisons of the database itself, for
  every folding and every order, and `FilterBuild.PlainReads` says when those of CEL are the same. A list that is not
  stored is an empty list to the expression. A membership test is unknown there, so its negation does not select such a
  row; `FilterBuild.NegatedMembership` and `FilterQuery.MembershipComplement` are the exact conditions.
- **Filters, form by form.** `FilterPlain` says for every form of test which rows the rendered text selects, in terms of
  the column or the list alone: `created_ts < n` selects the rows whose value is less than `n`, `tag in [..]` those with a
  tag that is listed or lies below a listed one with a slash after it. `FilterForms.CompilesExactly` says which
  expressions over a schema are compiled at all, in both directions, and `FilterForms.MemoComparisons`, `MemoTests` and
  `MemoLists` list them for the fields of a memo.
- **Arguments.** Folding drops text but keeps arguments. Numbered placeholders keep denoting their values regardless
  (`FilterQuery.NumberedClause`), and every argument is named by one if and only if no kept filter drops an argument
  (`FilterQuery.NamedClause`). Question marks get the right values if and only if no kept filter drops one
  (`FilterQuery.MarkedClauseIff`); `FilterArgs.DroppedArgument` is an instance where it does.
- **Deleting a user.** The breadth-first traversal of MySQL and the recursive union of Postgres both compute the least set
  of memos that holds those of the user and is closed under comments, on cyclic graphs too. The deletion is all or nothing,
  batches have the effect of one delete, and every reference that resolved before resolves afterwards. Nothing more is
  taken: `UserDelete.DeletedRows` says for each of nine tables, by the fields of a row, that it stays exactly if it neither
  belongs to the user nor refers to the user or to a deleted memo.
- **Run loop.** In every run, across stops and restarts: ids are never reused, a removed entry never starts again, starts
  are never early, the activations for which an entry starts increase, and a wake starts exactly the entries that are due.
  While the loop runs, each entry waits for the activation that its schedule gives after the last time it was made to wait
  (`CronLoop.WaitsForNext`), and every start is for such an activation (`CronLoop.StartsAreScheduled`).
- **Caches.** Eviction takes exactly the oldest items in any iteration order, the counter is the number of keys, in every
  run with one TTL and a clock that does not go back the item just set is there (`TtlCache.JustSetStays`), and every entry
  of the store caches is the row of the database under its key. A cached user is returned without a look at the other
  filters of the query; `StoreCache.Store.GetUser` says exactly when that matters, and `StoreCache.RejectedUserIsFound` is
  an instance.
- **Migrations.** Two upgrades apply the same sequence of scripts as one if and only if no script of the second precedes
  one of the first. Scripts are sorted by path, and 0.10 sorts before 0.9: on releases laid out as in the repository,
  upgrades from a version compose if and only if it is not below the last version with a one-digit minor number
  (`Migrator.ComposesFromExactly`). Versions with one-digit minor numbers lie outside the window of versions that may be
  upgraded, which begins at 0.22.0, so every upgrade that is accepted composes (`Migrator.SupportedComposes`). Scripts are
  committed before the version is recorded: over any number of starts the scripts are applied exactly once if and only if
  no start commits them and fails to record the version (`Migrator.AppliedOnce`).
- **Import.** The accounts of a document balance, and an import is allowed if and only if every record is well formed and
  has a name of its own and the declared numbers are those over all records, comments included. Each record to import has
  the fields of a memo that was given, and no memo is left out that is valid, is no comment and has a name of its own
  (`MemoImport.RecordsCarry`).

## Conventions

Instants are seconds from January 1 of year 1 in `CronSpec` and nanoseconds in `CronLoop` and `ConstantDelay`. Clocks,
failures of the database and the results of libraries (decoded JSON, checked CEL expressions, parsed timestamps, the
match of a resource id, the order of strings in a collation, map iteration order) are parameters. Integers are unbounded
except where 64-bit behaviour shows: `Texts.Atoi` and the arithmetic of `FilterBuild`.

## Model

| member | source | states |
|---|---|---|
| CronSpec.Next | internal/cron/spec.go:58-175 | the result is the least matching second after `t` in the zone of the schedule, up to five years past the year of the first candidate, or zero if there is none; right exactly when the search does not miss |
| CronSpec.FindNext | internal/cron/spec.go:81-172 | the five nested searches with restart find the first hit or prove that none is left; terminates by the time left to the limit year |
| CronSpec.Begin | internal/cron/spec.go:81-90 | the search invariant holds at the first arrival at the restart label |
| CronSpec.MonthStep | internal/cron/spec.go:97-110 | advancing a month keeps the invariant: nothing passed over is an activation, finer fields are at their minimum |
| CronSpec.DayStep | internal/cron/spec.go:117-136 | the same for a day, under the day rule |
| CronSpec.HourStep | internal/cron/spec.go:138-148 | the same for an hour |
| CronSpec.MinuteStep | internal/cron/spec.go:150-160 | the same for a minute, with the rounding in UTC and the offset it leaves |
| CronSpec.SecondStep | internal/cron/spec.go:162-172 | the same for a second |
| CronSpec.ScanBegin | internal/cron/spec.go:150-162 | on leaving the minute loop the rest of the minute holds no skipped second |
| CronSpec.Found | internal/cron/spec.go:162-174 | leaving the second loop means the first hit is reached |
| CronSpec.Exhausted | internal/cron/spec.go:88-93 | past the limit year there is no hit in the window |
| CronSpec.HitsAgree | internal/cron/spec.go:150-160 | if the search does not miss, its first hit is the first matching second |
| CronSpec.MissedMatch | internal/cron/spec.go:150-160 | if the search misses, a matching second in the window comes before everything it can return |
| CronSpec.WholeMinutes | internal/cron/spec.go:150-155 | at offsets of whole minutes no search misses |
| CronSpec.SkewExample | internal/cron/spec.go:150-155 | a schedule, a time and an offset of 30 seconds for which the next activation is missed |
| Calendar.MonthLengths | internal/cron/spec.go:97-110 | a month has 28, 29, 30 or 31 days by its number and the Gregorian leap rule |
| Calendar.DateAdvances | internal/cron/spec.go:117-136 | the date of the next day: the next day of the month, the first of the next month, or January 1; and the next weekday |
| Calendar.Epochs | internal/cron/spec.go:179-182 | the zero time is Monday, January 1 of year 1; the Unix epoch is Thursday, January 1, 1970 |
| Calendar.TimeOfDay | internal/cron/spec.go:138-172 | the second of the day is 3600 times the hour plus 60 times the minute plus the second, each in its range |
| CronParser.GetBits | internal/cron/parser.go:355-368 | the bits set are exactly the values from min to max at the step, in the shift form and in the loop form |
| CronParser.ShiftFormBits | internal/cron/parser.go:359-361 | the shift form sets the bits that the loop form sets at step one |
| CronParser.GetRange | internal/cron/parser.go:263-329 | an element is accepted exactly if it denotes a range that fits the field; its bits are those the range covers, bit 63 an unstepped wildcard |
| CronParser.GetField | internal/cron/parser.go:245-256 | a field is accepted exactly if each element is; bit i says that some element covers i, bits lie within bounds, bit 63 says some element is an unstepped wildcard |
| CronParser.StarDefersToWeekday | internal/cron/spec.go:179-188 | a bare star for the day of the month leaves the day to the elements of the day-of-week field |
| CronParser.StarDefersToDay | internal/cron/spec.go:179-188 | a bare star for the day of the week leaves the day to the elements of the day-of-month field |
| CronParser.StarredDaysAgree | internal/cron/spec.go:179-188 | with an unstepped wildcard in either day field, a day matches exactly if an element of each covers it |
| CronParser.RestrictedDaysCombine | internal/cron/spec.go:179-188 | with no wildcard in either day field, a day that either field covers matches |
| CronFields.NumberCovers | internal/cron/parser.go:263-329 | `n` is accepted exactly within the bounds, and covers n alone |
| CronFields.RangeCovers | internal/cron/parser.go:263-329 | `lo-hi` is accepted exactly if the bounds hold it in this order, and covers the numbers from lo to hi |
| CronFields.RangeStepCovers | internal/cron/parser.go:263-329 | `lo-hi/k` covers every k-th number from lo to hi |
| CronFields.FromStepCovers | internal/cron/parser.go:304-307 | `n/k` covers every k-th number from n to the end of the field |
| CronFields.StarStepCovers | internal/cron/parser.go:270-311 | a wildcard with a step covers every k-th number from the beginning, and is unstepped exactly for step one |
| CronFields.StarCovers | internal/cron/parser.go:270-274 | a bare wildcard covers the whole field and is unstepped |
| CronFields.MonthNames | internal/cron/spec.go:21-49 | the names of the months, in capitals or not, stand for 1 to 12 from January on |
| CronFields.WeekdayNames | internal/cron/spec.go:21-49 | the names of the weekdays, in capitals or not, stand for 0 to 6 from Sunday on |
| CronFields.ElementsAre | internal/cron/parser.go:245-256 | a field covers what the parts between its commas cover |
| CronFields.NormalizeFields | internal/cron/parser.go:169-224 | accepted exactly for as many fields as places, or one less with one optional place; given fields keep their order, the others get their defaults |
| CronFields.ParseFields | internal/cron/parser.go:132-162 | six fields give a schedule exactly if each is accepted, and the schedule holds what they say |
| CronFields.MatchesDescribed | internal/cron/parser.go:97-163 | the schedule read from six fields matches exactly the seconds that their texts describe |
| CronFields.NextDescribed | internal/cron/spec.go:58-175 | from texts to activation: the first second after t that they describe, or zero if there is none within the limit |
| CronFields.OnDayOfMonth | internal/cron/spec.go:179-188 | `m h d * *` means h:m on day d of every month |
| CronFields.OnWeekday | internal/cron/spec.go:179-188 | `m h * * w` means h:m on weekday w of every week |
| CronFields.OnEither | internal/cron/spec.go:179-188 | `m h d * w` means h:m on every day that is either |
| CronFields.DescriptorMeans | internal/cron/parser.go:376-447 | the descriptors are recognized exactly by their names and stand for the start of every year, month, week from Sunday, day or hour |
| CronLoop.Cron.ScheduleJob | internal/cron/cron.go:139-155 | the new entry has an id no entry has, is waiting if the loop runs, and the invariant is kept |
| CronLoop.Cron.Remove | internal/cron/cron.go:185-193 | exactly the entry with the id leaves, and the invariant is kept |
| CronLoop.Cron.RemoveEntry | internal/cron/cron.go:341-349 | the entries without the id, in their order |
| CronLoop.Cron.Start | internal/cron/cron.go:196-228 | every entry waits for what its schedule gives after now, and the timer is set to the earliest of these; nothing happens if the loop runs |
| CronLoop.Cron.Stop | internal/cron/cron.go:317-330 | the loop stops and the entries stay |
| CronLoop.Cron.Wake | internal/cron/cron.go:258-273 | the loop that breaks at the first entry not due fires all entries that are due wherever they stand, and logs one start for each |
| CronLoop.Cron.Entries | internal/cron/cron.go:333-339 | the snapshot is the list of entries |
| CronLoop.Sort | internal/cron/cron.go:232-247 | a sorted permutation, zero times last |
| CronLoop.WakeExact | internal/cron/cron.go:258-273 | each entry whose activation is not after now starts exactly once for it, remembers it and waits for what its schedule gives after now; no other starts or changes; afterwards no activation is left that is not after now |
| CronLoop.StartExact | internal/cron/cron.go:196-228 | after a start from a stopped loop the entries are the old ones waiting for what their schedules give after now, as many, with the timer at the earliest |
| CronLoop.AddExact | internal/cron/cron.go:139-155 | a new entry waits for what its schedule gives after now if the loop runs, else for nothing; the others stay as they are |
| CronLoop.RemoveExact | internal/cron/cron.go:341-349 | the entry with the id leaves, the others stay as they are |
| CronLoop.WaitsForNext | internal/cron/cron.go:220-301 | in every run, an entry of a running loop waits for what its schedule gives after the last start of the loop, addition or run of that entry |
| CronLoop.StartsAreScheduled | internal/cron/cron.go:258-273 | in every run, each job starts for the activation that its schedule gives after that time, none made up or passed over |
| CronLoop.PrevIsLastStart | internal/cron/cron.go:258-273 | in every run, the previous activation of an entry is the one of its last start, or none if it never started |
| CronLoop.StepKeeps | internal/cron/cron.go:220-301 | every event keeps the invariant: ids distinct and assigned, sorted while running, previous before next activation, no start early, starts of an entry increasing |
| CronLoop.RunSafe | internal/cron/cron.go:139-349 | the invariant holds in every state of every run with a clock that does not go back |
| CronLoop.IdsNeverReused | internal/cron/cron.go:139-155 | ids given in a run are pairwise different and new when given |
| CronLoop.RemovedNeverStarts | internal/cron/cron.go:185-193 | after an assigned id is removed, no later start and no later entry has it |
| CronLoop.SleepsUntilEarliest | internal/cron/cron.go:249-256 | the timer is set to the earliest activation of any entry, or to none exactly if no entry has one |
| CronLoop.PunctualWake | internal/cron/cron.go:258-273 | a wake at the time slept for starts that activation and moves to the one the schedule gives after it |
| CronSchedule.SpecIsLawful | internal/cron/spec.go:58-175 | a cron specification keeps the promise that the run loop relies on: activations are strictly later |
| CronSchedule.NextActivation | internal/cron/spec.go:58-175 | what the search returns is what that schedule gives the loop; the zero time is none |
| CronSchedule.ScheduleIsNext | internal/cron/spec.go:58-175 | in a zone of whole minutes the loop is given the first second after now that agrees with the schedule, in nanoseconds, or none if there is none within the limit |
| ConstantDelay.Every | internal/cron/constantdelay.go:14-21 | the delay is whole seconds, at least one, and less than a second below a longer one that was asked for |
| ConstantDelay.NextIsOnTheSecond | internal/cron/constantdelay.go:25-27 | activations are strictly later, on the second and within one delay |
| ConstantDelay.ActivationsAreRegular | internal/cron/constantdelay.go:25-27 | after the first, activations follow each other at exactly the delay |
| ConstantDelay.EveryIsLawful | internal/cron/cron.go:40-44 | such a schedule keeps the promise that the run loop relies on |
| FilterTags.LikeFinds | internal/filter/render.go:335-382 | LIKE for a tag, a prefix, a suffix or a part on the JSON text holds exactly if some tag matches up to LIKE's character equality, or a separator or bracket on the right side does |
| FilterSafe.FoundFits | internal/filter/render.go:335-565 | whatever LIKE finds in the JSON text of a list, wildcards included, can be followed through the places of a JSON array |
| FilterSafe.Fitting | internal/filter/render.go:335-565 | every text that can be followed so is found in some list of tags |
| FilterSafe.LikeIsSome | internal/filter/render.go:496-565 | where the text is safe, LIKE is a quantifier over the tags |
| FilterSafe.LikeExact | internal/filter/render.go:335-565 | each of the four tests is right on all lists if and only if its text is safe: tag runes without a wildcard, or a text that no list can hold |
| FilterIr.FoldIsTruth | internal/filter/render.go:598-626 | a tree that its constants decide has that value on every row, whatever is NULL |
| FilterSql.Kleene | internal/filter/render.go:598-626 | AND, OR and NOT are least, greatest and reversal in the order false, unknown, true |
| FilterSql.Binding | internal/filter/render.go:598-626 | in text without parentheses AND binds tighter than OR and NOT tighter than both |
| FilterRender.TagListFinds | internal/filter/render.go:335-382 | the text for `tag in` a list that is not empty is read as the disjunction of the tests of all listed tags, and is unknown exactly where the list is missing |
| FilterRender.ExistsFinds | internal/filter/render.go:496-582 | the guarded test is true exactly if the list is there, is not empty and the test finds a tag, else false |
| FilterRender.LeafMeaning | internal/filter/render.go:126-582 | the text of any leaf is read as one operand with the value its tests find, or cannot be read exactly if it searches an empty list |
| FilterRender.TreeMeaning | internal/filter/render.go:61-124 | the rendered text of any tree has on every row the three-valued value of what its leaves find; folded trees render to nothing or to a falsehood |
| FilterRender.FoldedMeaning | internal/filter/render.go:598-626 | folding a constant operand away keeps text and value of the other operand, also where that is NULL |
| FilterExact.LeafIsMeant | internal/filter/render.go:335-582 | a leaf whose texts are safe finds what it is meant to say: some tag equals, starts with, ends with or contains the text, or lies below a listed tag |
| FilterExact.TreeIsMeant | internal/filter/render.go:61-124 | so does every tree of such leaves |
| FilterExact.ElementExact | internal/filter/render.go:384-415 | membership of a literal is right on all rows if and only if the text is safe, in SQLite; the JSON operators are right for every text |
| FilterExact.ExistsExact | internal/filter/render.go:496-582 | the same for each kind of `exists` |
| FilterExact.TagExact | internal/filter/render.go:335-382 | the same for `tag in` with one tag |
| FilterExact.ContainsExact | internal/filter/render.go:449-469 | `contains` on a column is right on all rows if and only if the text has no wildcard |
| FilterArgs.NumberedStatement | internal/filter/render.go:628-635 | every `$k` of a statement at any offset, among any other arguments, denotes the value it was rendered for, folding or not |
| FilterArgs.ArgsAreParams | internal/filter/render.go:598-635 | the pushed arguments are the values of the text in their order, unless folding drops some: then there are more of them |
| FilterArgs.MarkedStatement | internal/filter/render.go:628-635 | binding the i-th mark to the i-th argument gives the intended text exactly if folding drops no argument |
| FilterArgs.DroppedArgument | internal/filter/render.go:598-601 | `content.contains("x") && false` renders `1 = 0` with one argument |
| FilterNames.NamedStatement | internal/filter/render.go:628-635 | a statement names arguments of its own only, and all of them exactly if folding drops none |
| FilterStatement.Renderer.AddArg | internal/filter/render.go:628-635 | the value goes to the end of the arguments and the placeholder names its position |
| FilterStatement.Renderer.AddBoolArg | internal/filter/render.go:637-650 | the same for booleans, as 0 or 1 in SQLite |
| FilterStatement.Renderer.RenderTagInList | internal/filter/render.go:335-382 | the loop writes the text specified for the list with its values pushed in order, and fails exactly if an element is no string |
| FilterStatement.Renderer.RenderScalarIn | internal/filter/render.go:417-447 | the same for IN on a column |
| FilterStatement.Renderer.RenderComparison | internal/filter/render.go:149-311 | comparisons write the specified text and push its values, and fail exactly if the leaf does not fit the schema |
| FilterStatement.Renderer.RenderElementIn | internal/filter/render.go:384-415 | the same for membership of a literal |
| FilterStatement.Renderer.RenderContains | internal/filter/render.go:449-469 | the same for contains |
| FilterStatement.Renderer.RenderExists | internal/filter/render.go:471-582 | the same for `exists` with its null check |
| FilterStatement.Renderer.RenderCondition | internal/filter/render.go:61-124 | one pass fails exactly on trees that do not fit the schema, else gives the rendering of the tree at the current counter and appends exactly its arguments |
| FilterStatement.Renderer.Render | internal/filter/render.go:32-59 | the statement of a tree: text and all pushed arguments |
| FilterQuery.Query.AppendConditions | internal/filter/helpers.go:9-25 | filters are appended in order up to the first that does not compile, numbered from the arguments that are there; succeeds exactly if all compile |
| FilterQuery.SkippedIffAlways | internal/filter/helpers.go:18-20 | a filter adds no fragment exactly if its constants make it true |
| FilterQuery.NumberedClause | internal/filter/helpers.go:9-25 | after any filters every `$k` of the whole clause denotes its value in the final arguments |
| FilterQuery.NamedClause | internal/filter/helpers.go:9-25 | every argument of the clause is named if and only if the query named all of its own and no kept filter drops one |
| FilterQuery.MarkedClauseIff | internal/filter/helpers.go:9-25 | the marks of the whole clause get their values if and only if no kept filter drops an argument; else nothing binds |
| FilterQuery.SpareInClause | internal/filter/helpers.go:9-25 | a clause never has fewer arguments than marks, and has more exactly if a kept filter drops one |
| FilterQuery.ClauseMeaning | internal/filter/helpers.go:9-25 | the joined clause can be read exactly if no empty search survives, and then is the conjunction of the query's own condition and what all filters find |
| FilterQuery.ClauseBinds | internal/filter/helpers.go:9-25 | with its final arguments the clause is the intended text and no other, in Postgres always and else exactly if no kept filter drops an argument |
| FilterQuery.QueryMeaning | internal/filter/helpers.go:9-25 | whatever text the query is bound to has the value of that conjunction on every row |
| FilterQuery.Complement | internal/filter/render.go:109-124 | the negation of a tree selects exactly the other rows if and only if the tree is not unknown |
| FilterQuery.ExistsComplement | internal/filter/render.go:109-124 | the text of an `exists` is true or false on every row for any pattern, so its negation selects exactly the other rows |
| FilterQuery.MembershipComplement | internal/filter/render.go:384-415 | the negation of an unguarded membership selects exactly the other rows if and only if the list is there |
| FilterQuery.TagListComplement | internal/filter/render.go:335-382 | the same for `tag in` a list that is not empty |
| FilterBuild.BuildInCondition | internal/filter/parser.go:147-194 | the loop over the elements builds the condition that the specification gives, or fails with it |
| FilterBuild.FoldsModulo | internal/filter/parser.go:359-409 | constant arithmetic gives the exact value modulo 2^64, and the exact value if and only if that fits |
| FilterBuild.OnlyExists | internal/filter/parser.go:455-477 | of the comprehensions that macros expand to only that of `exists` is accepted |
| FilterBuild.ComprehensionMeaning | internal/filter/parser.go:416-451 | the built condition has the value of the loop of the comprehension on every row, rows without a list included |
| FilterBuild.BuildMeaning | internal/filter/parser.go:10-101 | wherever a filter expression has a truth value on a row, the tree built from it is true exactly if the expression is; and false exactly if it is, where the lists of its membership tests are stored |
| FilterBuild.NegatedMembership | internal/filter/parser.go:147-194 | a negated membership test and its expression select the same rows if and only if the list is stored |
| FilterBuild.StoredReads | internal/filter/render.go:449-469 | reading an expression with the comparisons of the database agrees with every tree |
| FilterBuild.PlainReads | internal/filter/render.go:449-469 | reading it with those of CEL agrees with a tree whose texts the foldings leave alone and whose comparisons the order of the database decides alike |
| FilterBuild.AsciiUndisturbed | internal/filter/render.go:451-455 | the folding of SQLite's LIKE leaves a text alone exactly if it holds no ASCII letter |
| FilterBuild.FiltersSelect | internal/filter/helpers.go:9-25 | the bound clause selects exactly the rows that meet the query's own condition and every filter expression |
| FilterBuild.StoredSelect | internal/filter/helpers.go:9-25 | the same with strings compared as the database does, whatever its foldings and its order |
| FilterPlain.NumberTest | internal/filter/parser.go:285-302 | a column of numbers or times compared with a literal is compiled exactly if the field permits the operator; the text is true exactly if value and literal stand in the relation of that name, and unknown on NULL |
| FilterPlain.TextTest | internal/filter/render.go:205-244 | the same for texts, in the order of the database |
| FilterPlain.NullTest | internal/filter/render.go:205-244 | against null only equality and inequality are compiled: whether there is a value |
| FilterPlain.FlagTest | internal/filter/render.go:246-256 | a boolean column is what it holds, alone or compared with a constant (false before true, unknown on NULL), in each dialect |
| FilterPlain.JsonFlagTest | internal/filter/render.go:258-311 | a JSON boolean, alone or compared with a constant, is what the database makes of it |
| FilterPlain.ContainsTest | internal/filter/render.go:449-469 | `contains` is compiled exactly if the field supports it, and then asks whether the text is a part of the column |
| FilterPlain.NumberListTest | internal/filter/render.go:417-447 | a column of numbers in a list: the value is one of those listed |
| FilterPlain.TextListTest | internal/filter/render.go:417-447 | a column of texts in a list: the value equals one of those listed |
| FilterPlain.MemberTest | internal/filter/render.go:384-415 | a text in the list of the row: the list holds it; unknown without a list |
| FilterPlain.SomeEquals | internal/filter/render.go:497-511 | some tag is the text |
| FilterPlain.SomeStarts | internal/filter/render.go:513-535 | some tag starts with the text |
| FilterPlain.SomeEnds | internal/filter/render.go:537-544 | some tag ends with the text |
| FilterPlain.SomeHolds | internal/filter/render.go:546-554 | some tag holds the text |
| FilterPlain.TagListTest | internal/filter/render.go:335-382 | some tag is listed, or begins with a listed one and a slash; unknown without a list |
| FilterPlain.SizeTest | internal/filter/render.go:173-203 | the number of tags, zero without a list, stands in the relation to the literal |
| FilterPlain.Connected | internal/filter/parser.go:40-88 | filters joined by a connective are compiled exactly if each is, and the text has the value of the connective |
| FilterForms.CompilesExactly | internal/filter/parser.go:10-101 | a filter over any schema is built and rendered if and only if it has one of the listed forms, in each dialect |
| FilterForms.MacrosCompile | internal/filter/parser.go:416-510 | of the macros exactly `exists` over a list of the row with a test on its items is compiled |
| FilterForms.MemoComparisons | internal/filter/schema.go:101-246 | which comparisons of the fields of a memo are compiled, for every field and right side |
| FilterForms.MemoTests | internal/filter/schema.go:101-246 | the flags that stand alone, the content that may be searched, the tags that may be counted and tested, and nothing else |
| FilterForms.MemoLists | internal/filter/schema.go:101-246 | which fields of a memo may be looked for in which lists of constants |
| FilterForms.AttachmentFilters | internal/filter/schema.go:269-325 | which comparisons and searches over the fields of an attachment are compiled |
| Cel.ExistsMeans | internal/filter/parser.go:479-493 | folding `@result` with OR over a list computes that some item satisfies the body |
| Cel.ComparesNumbers | internal/filter/parser.go:285-302 | the six comparisons of two numbers are those of the integers |
| Cel.ComparesTexts | internal/filter/parser.go:285-302 | two texts compare by the first character in which they differ |
| Cel.Connects | internal/filter/parser.go:40-83 | connectives of true and false operands are those of logic |
| Cel.Calculates | internal/filter/parser.go:359-409 | arithmetic is that of the integers where the result fits in 64 bits |
| Cel.TestsText | internal/filter/parser.go:549-615 | `contains`, `startsWith`, `endsWith` and equality of a text with a constant |
| CommentTree.ClosureIsClosed | store/db/mysql/user_delete.go:133-181 | the memos reachable from those of the user hold the user's memos and the comments on their own members |
| CommentTree.ClosureIsLeast | store/db/postgres/user_delete.go:133-166 | they are contained in every set with that property |
| CommentTree.ClosureHolds | store/db/mysql/user_delete.go:133-181 | by rows: the closure holds the memos whose creator is the user and every memo with a comment relation to a member |
| CommentTree.ClosureHoldsOnly | store/db/mysql/user_delete.go:133-181 | and only memos that every such set holds |
| CommentTree.MemoTreeRecursiveIsClosure | store/db/postgres/user_delete.go:133-166 | the recursive union terminates with exactly the reachable memos |
| CommentTree.MemoTreeIterative | store/db/mysql/user_delete.go:133-181 | the level-by-level traversal terminates on every graph and returns exactly the reachable memos, each once |
| CommentTree.NextLevel | store/db/mysql/user_delete.go:154-178 | one level adds exactly the unseen comments on the frontier, in batches |
| CommentTree.Batches | store/db/mysql/user_delete.go:517-534 | batches that are not empty and not larger than the size, whose concatenation is the list |
| UserDelete.InClause | store/db/postgres/user_delete.go:470-478 | placeholders numbered from the start, and the values as arguments |
| UserDelete.RelationClauses | store/db/postgres/user_delete.go:438-449 | both clauses of the statement denote the batch |
| UserDelete.Tx.RunInBatches | store/db/mysql/user_delete.go:427-501 | deleting in batches has the effect of one delete by the whole list |
| UserDelete.Tx.RunReactionsInBatches | store/db/mysql/user_delete.go:417-425 | the same for reactions by content |
| UserDelete.ListMemoTree | store/db/mysql/user_delete.go:129-131 | both drivers list exactly the reachable memos, each once |
| UserDelete.ListAttachments | store/db/mysql/user_delete.go:205-275 | exactly the attachments whose creator is the user or whose memo is listed, each once |
| UserDelete.ListInboxes | store/db/mysql/user_delete.go:304-415 | exactly the inbox items whose sender or receiver is the user, and those whose message names a memo to be deleted by a number that is not 0, each once |
| UserDelete.CollectTargets | store/db/mysql/user_delete.go:61-90 | exactly the memos, attachments, inbox items and setting keys to delete |
| UserDelete.DeleteTargets | store/db/mysql/user_delete.go:92-127 | on success the statements ran in their order over nine tables |
| UserDelete.SweepIsDeletion | store/db/mysql/user_delete.go:92-127 | together they remove exactly what belongs or refers to the user or a deleted memo, and nothing else |
| UserDelete.DeletedRows | store/db/mysql/user_delete.go:92-127 | table by table and by the fields of a row: it stays, unchanged, if and only if it neither belongs to the user nor refers to the user or to a memo of the closure |
| UserDelete.DeletionKeepsReferences | store/db/mysql/user_delete.go:386-534 | if all references resolved, they still do, and nothing of the user is left |
| UserDelete.Database.DeleteUser | store/db/mysql/user_delete.go:29-59 | all or nothing: the tables lose exactly the deletion, or on any error nothing has changed; the attachments returned are exactly the removed ones |
| TtlCache.OldestUnique | store/cache/cache.go:258-321 | there is one set of that size whose items are all older than the others |
| TtlCache.NewestStays | store/cache/cache.go:258-321 | an item that nothing is newer than is not among the oldest |
| TtlCache.JustSetStays | store/cache/cache.go:95-125 | in every run with one TTL and a clock that does not go back, the item just set is there, whatever is evicted |
| TtlCache.Cache.SetWithTTL | store/cache/cache.go:100-125 | below the limit only the key changes; a new key at the limit leaves limit + 1 - max(limit/5, 1) items, and what left expires before what stays or was written before it; with expirations not after the new one the new item survives |
| TtlCache.Cache.Set | store/cache/cache.go:95-97 | the same with the default TTL, as the step of a run |
| TtlCache.Cache.Get | store/cache/cache.go:128-152 | the value unless expired; an expired item is dropped, and nothing else changes |
| TtlCache.Cache.Delete | store/cache/cache.go:155-165 | exactly that key leaves |
| TtlCache.Cache.Clear | store/cache/cache.go:168-184 | nothing is left and the counter is zero |
| TtlCache.Cache.Cleanup | store/cache/cache.go:223-255 | exactly the expired items leave, in any order of the map |
| TtlCache.Cache.CleanupOldest | store/cache/cache.go:258-321 | exactly the max(limit/5, 1) oldest items leave, by expiration and then by write, in any order of the map |
| TtlCache.Cache.FindOldest | store/cache/cache.go:269-304 | the candidates kept while iterating are the oldest items |
| StoreCache.SettingCacheKeyInjective | store/cache.go:7-9 | different settings have different cache keys |
| StoreCache.StoredKeys | store/user_setting.go:462-507 | the settings that can be stored, by name |
| StoreCache.Store.CreateUser | store/user.go:90-98 | the row is stored and the cache stays coherent |
| StoreCache.Store.UpdateUser | store/user.go:124-132 | the row is replaced and the cache stays coherent |
| StoreCache.Store.ListUsers | store/user.go:134-144 | the rows an uncached read finds, and the cache stays coherent |
| StoreCache.Store.GetUser | store/user.go:146-167 | a read by id returns the row as an uncached read would; with further filters the result is wrong if and only if the user is cached and they reject it |
| StoreCache.RejectedUserIsFound | store/user.go:146-167 | a store at which a read whose filter rejects every user returns one |
| StoreCache.Store.UpsertUserSetting | store/user_setting.go:42-61 | the row is stored, what is returned is decoded from it, and the cache stays coherent |
| StoreCache.Store.ListUserSettings | store/user_setting.go:63-82 | the decoded rows, and the cache stays coherent |
| StoreCache.Store.GetUserSetting | store/user_setting.go:84-108 | a read by user and key, by either or by neither returns what an uncached read would: the one setting, none, or an error if there are several |
| StoreCache.Store.DeleteUserSettings | store/user_setting.go:110-125 | the rows are gone and no cache entry for them is left |
| StoreCache.Store.DeleteUser | store/user_delete.go:39-47 | the user and its settings are gone from the tables and from both caches |
| StoreCache.Store.Expire | store/cache/cache.go:223-255 | expiry in either cache keeps coherence |
| Migrator.CompareIsOrder | internal/version/version.go:33-40 | versions with their pre-releases are totally ordered, malformed ones lowest |
| Migrator.Precedence | internal/version/version.go:33-40 | major, minor and patch compare as numbers in this order, a pre-release is below its release, what cannot be read is lowest |
| Migrator.PreReleasePrecedence | internal/version/version.go:33-40 | pre-releases compare by the first identifier in which they differ: numbers by value and below names, names by characters; a longer list is higher |
| Migrator.VersionReadsBack | internal/version/version.go:33-40 | every version reads back from its text |
| Migrator.WindowIs | store/migrator.go:78-82 | a script is applied exactly if its version is above the old one and not above the new one |
| Migrator.NothingRecorded | store/migrator.go:64-82 | with nothing recorded, or 0.0.0, every release script up to the target is due; without scripts the newest version is 0.0.0 |
| Migrator.SupportedReleases | store/migrator.go:378-394 | a release may be upgraded exactly from 0.22.0 on, up to the newest version |
| Migrator.SameScripts | store/migrator.go:78-82 | upgrading in two steps applies the same scripts as often as upgrading at once |
| Migrator.Composition | store/migrator.go:145-199 | and in the same sequence if and only if no script of the second step precedes one of the first |
| Migrator.ReleasesCompose | store/migrator.go:145-199 | with scripts in version order any number of upgrades apply the scripts of the whole way |
| Migrator.EarlierRelease | store/migrator.go:78-82 | the earlier release applies what the later one would up to its version |
| Migrator.NothingLeft | store/migrator.go:78-82 | at the newest version nothing is applied |
| Migrator.VersionOfLayout | store/migrator.go:329-347 | the version of a script laid out by minor version and two-digit number is read back, one above the number |
| Migrator.LayoutSorts | store/migrator.go:150-150 | such paths with two-digit minor versions sort by version |
| Migrator.ReleaseComposes | store/migrator.go:145-199 | from the last version with a one-digit minor number on, two upgrades of a release are one |
| Migrator.SupportedComposes | store/migrator.go:145-199 | from every version that may be upgraded, two upgrades are one |
| Migrator.ComposesFromExactly | store/migrator.go:150-150 | upgrades from a version compose on every release if and only if it is not below that last one-digit version |
| Migrator.OneDigitMinors | store/migrator.go:150-150 | two scripts of the SQLite migrations that two upgrades apply in another sequence than one, below the versions that may be upgraded |
| Migrator.Store.GetCurrentSchemaVersion | store/migrator.go:304-324 | the greatest version of any script, or an error exactly if one cannot be read |
| Migrator.Store.ApplyMigrations | store/migrator.go:145-213 | the window is applied in path order in one transaction; the version is recorded only after it |
| Migrator.Store.Migrate | store/migrator.go:100-141 | succeeds exactly from a supported version without failures, then at the newest version with exactly the window applied; the recorded version never decreases; on failure all or nothing of the window |
| Migrator.Retries | store/migrator.go:193-210 | as long as no start completes, each that commits applies the whole window once more |
| Migrator.AppliedOnce | store/migrator.go:193-210 | after the first start that completes, the window was applied exactly once if and only if no earlier one committed it and failed to record the version |
| MemoImport.ParseRecordValid | internal/memoimport/parser.go:268-359 | a record is valid exactly if it is well formed, its content within the limit in bytes; a valid one has a known state |
| MemoImport.ValidExactly | internal/memoimport/parser.go:268-359 | validity in terms of the fields given: name, known state and visibility, readable times, content within the limit, types of the rest |
| MemoImport.FieldsCarried | internal/memoimport/parser.go:268-359 | a valid outcome has name, content and visibility as given, null for not pinned, the creation time for a missing update time, a comment exactly for a nonempty parent, and the lengths of the arrays as skipped |
| MemoImport.FailureCarries | internal/memoimport/parser.go:268-359 | a failure is known by the name given, and claims the state given once the name is a resource name |
| MemoImport.BytesAre | internal/memoimport/parser.go:319-321 | the length of a content is that of its UTF-8 encoding |
| MemoImport.EnvelopeExactly | internal/memoimport/parser.go:127-184 | the envelope is accepted exactly with format, version, time, user, consistent counts, flags and as many memos as declared; the user goes by display name or else username |
| MemoImport.Parse | internal/memoimport/parser.go:127-248 | the document is the one specified by classes of records: counts, issues, skipped items and records in order, or the first envelope problem; every record to import has the fields of a memo given; import is allowed if and only if the envelope is, every memo is valid, names differ and the declared numbers are those of the states given |
| MemoImport.Conservation | internal/memoimport/parser.go:185-239 | total = normal + archived + invalid + unsupported, kept records number normal + archived and have distinct names |
| MemoImport.Accounts | internal/memoimport/parser.go:185-239 | each number of a document is the number of records of its kind |
| MemoImport.KeptFrom | internal/memoimport/parser.go:190-239 | the records to import are those of the first valid memos that are no comments, in their order |
| MemoImport.SkippedTotals | internal/memoimport/parser.go:190-219 | what is skipped is the sum over all records; comments are those not restored |
| MemoImport.IssuesExact | internal/memoimport/parser.go:204-232 | the issues are exactly those that apply to some record, with its number and name |
| MemoImport.RecordsCarry | internal/memoimport/parser.go:185-239 | every record has the fields of a memo given, and every first valid memo that is no comment becomes one |
| MemoImport.CanImportIff | internal/memoimport/parser.go:84-86 | import is allowed if and only if all records are well formed with distinct names and the declared state counts are those over all records |
| MemoImport.Importable | internal/memoimport/parser.go:84-86 | the same in terms of the memos given: all valid, no name twice, as many in each state as declared |

## Left out

- Named time zones, daylight saving and `TZ=` in cron specifications: a zone is a fixed offset. The correction for midnights that daylight saving removes is there and shown never to apply.
- Splitting a cron specification into fields at white space, and the duration after `@every`.
- The zero time as an instant of its own: an activation at the first second of year 1 in UTC cannot be told from none, so the converse half of the contract of `CronSpec.Next` speaks of instants of year 1 or later.
- Goroutines, channels and locks of the run loop: events are steps, each at a time that does not go back. The library sort is any sorted permutation; waiting for running jobs is not modelled.
- CronLoop.RemovedNeverStarts: speaks of ids that were assigned; removing an id before it is given has no effect, as in the code.
- CEL parsing and type checking, and reading a schema: checked expressions and schemas are inputs. `now()` is one instant per filter.
- FilterStatement.Renderer.RenderComparison: literals are null, integers, strings and booleans; double and unsigned literals, which the source converts to integers, are left out.
- Comparisons of JSON booleans: how they treat absent fields differs by field and dialect, so such leaves are opaque atoms with a truth value from the row. The text that holds a connective of its own (`NOT(.. IS TRUE)`) is one atom.
- Column expressions: an atom names its field, not the SQL of its column; `COALESCE` around list lengths is in the meaning of the atom.
- Backslashes, which LIKE and JSON strings escape: the string theorems speak of lists of tags made of tag runes and of texts without quotes, backslashes and control characters.
- FilterExact.TagExact: is about one listed tag; with several, the test of one can cover up the mistake of another.
- FilterBuild.BuildMeaning: says nothing where the expression is an error (NULL columns, overflow, JSON booleans) or uses the alias `tag`, whose search includes tags below and is no operation of the language.
- The SQL engines and transaction isolation: tables are maps, statements are functions on them, commit is one step.
- Attachment files and the payloads of inbox messages beyond the memo ids that they name.
- The SQLite driver's deletion, which finds the memos by a recursive union like Postgres.
- Concurrent use of the cache: its counter claims are about sequential runs. `OnEviction` callbacks, size estimates and the wrap-around of the 64-bit sequence number are not modelled.
- Values in the store caches are copies: changing a cached message in place, and writes that fail after such a change, are not modelled. The database gives a new user an id that no row has.
- StoreCache.Store.DeleteUser: the deletion in the database is the one of `UserDelete`, seen here through users and settings only.
- Backups before a migration, demo seeding, and the contents of `LATEST.sql`. Layouts of scripts are those of major version 0 with minor versions and script numbers below 100.
- JSON decoding and timestamps of imported documents: each field arrives as absent, null, mistyped or a value. Messages of issues are reasons without their wording.
- `internal/scheduler`, the cascade of `Store.DeleteMemo`, and the remaining server, clients and user interfaces.
