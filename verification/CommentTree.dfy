/** The tables that deleting a user touches, and the tree of comments below the user's memos. */
module CommentTree {
  import opened Sets
  import opened Texts

  datatype Memo = Memo(uid: string, creator: int)

  /** Memo `memo` relates to memo `related`; for comments, as a comment on it. */
  datatype Relation = Relation(memo: int, related: int, comment: bool)
  datatype Attachment = Attachment(creator: int, memo: Option<int>)
  datatype Reaction = Reaction(creator: int, content: string)
  datatype Share = Share(creator: int, memo: int)

  /** What an inbox message refers to; memo number 0 stands for none. */
  datatype Message = MemoComment(memo: int, related: int) | MemoMention(memo: int, related: int) | Other
  datatype Inbox = Inbox(sender: int, receiver: int, message: Message)

  datatype Tables = Tables(
    users: set<int>,
    memos: map<int, Memo>,
    relations: set<Relation>,
    attachments: map<int, Attachment>,
    reactions: map<int, Reaction>,
    shares: map<int, Share>,
    inboxes: map<int, Inbox>,
    identities: map<int, int>,
    settings: map<(int, string), string>)

  /** What the traversal collects about a memo. */
  datatype MemoRef = MemoRef(id: int, uid: string)

  function Roots(t: Tables, user: int): set<int> {
    set m | m in t.memos && t.memos[m].creator == user
  }

  /** The memos that are comments on one of `parents`. */
  function Children(t: Tables, parents: set<int>): set<int> {
    set m | m in t.memos && exists p :: p in parents && Relation(m, p, true) in t.relations
  }

  // ----- Reachability -----

  /** `path` starts at a memo of the user and goes from memo to comment. */
  ghost predicate IsPath(t: Tables, user: int, path: seq<int>) {
    && path != [] && path[0] in Roots(t, user)
    && forall i | 0 < i < |path| :: path[i] in t.memos && Relation(path[i], path[i - 1], true) in t.relations
  }

  ghost predicate Reachable(t: Tables, user: int, m: int) {
    exists path :: IsPath(t, user, path) && path[|path| - 1] == m
  }

  /** The user's memos with every comment reachable from them. */
  ghost function Closure(t: Tables, user: int): set<int> {
    set m | m in t.memos && Reachable(t, user, m)
  }

  ghost predicate Closed(t: Tables, user: int, s: set<int>) {
    Roots(t, user) <= s && Children(t, s) <= s
  }

  lemma {:induction false} ClosedHoldsPaths(t: Tables, user: int, s: set<int>, path: seq<int>)
    requires Closed(t, user, s) && IsPath(t, user, path)
    ensures path[|path| - 1] in s
  {
    if |path| > 1 {
      var init := path[..|path| - 1];
      ClosedHoldsPaths(t, user, s, init);
      assert init[|init| - 1] in s;
      assert path[|path| - 1] in Children(t, s);
    }
  }

  lemma RootReachable(t: Tables, user: int, m: int)
    requires m in Roots(t, user)
    ensures Reachable(t, user, m)
  {
    var path := [m];
    assert IsPath(t, user, path) && path[|path| - 1] == m;
  }

  lemma ChildReachable(t: Tables, user: int, p: int, m: int)
    requires Reachable(t, user, p) && m in t.memos && Relation(m, p, true) in t.relations
    ensures Reachable(t, user, m)
  {
    var path :| IsPath(t, user, path) && path[|path| - 1] == p;
    var longer := path + [m];
    assert IsPath(t, user, longer) && longer[|longer| - 1] == m;
  }

  lemma ClosureIsClosed(t: Tables, user: int)
    ensures Closed(t, user, Closure(t, user))
  {
    hide Reachable;
    var s := Closure(t, user);
    forall m | m in Roots(t, user)
      ensures m in s
    {
      RootReachable(t, user, m);
    }
    forall m | m in Children(t, s)
      ensures m in s
    {
      var p :| p in s && Relation(m, p, true) in t.relations;
      ChildReachable(t, user, p, m);
    }
  }

  /** The closure is the least set that holds the user's memos and the comments on its members. */
  lemma ClosureIsLeast(t: Tables, user: int, s: set<int>)
    requires Closed(t, user, s)
    ensures Closure(t, user) <= s
  {
    forall m | m in Closure(t, user)
      ensures m in s
    {
      var path :| IsPath(t, user, path) && path[|path| - 1] == m;
      ClosedHoldsPaths(t, user, s, path);
    }
  }

  /** In terms of rows: the closure holds the memos that the user created and every memo that is a comment on a member,
      ... */
  lemma ClosureHolds(t: Tables, user: int)
    ensures Closure(t, user) <= t.memos.Keys
    ensures forall m | m in t.memos && t.memos[m].creator == user :: m in Closure(t, user)
    ensures forall r | r in t.relations && r.comment && r.memo in t.memos && r.related in Closure(t, user) ::
      r.memo in Closure(t, user)
  {
    ClosureIsClosed(t, user);
    var s := Closure(t, user);
    forall m | m in t.memos && t.memos[m].creator == user
      ensures m in s
    {
      assert m in Roots(t, user);
    }
    forall r | r in t.relations && r.comment && r.memo in t.memos && r.related in s
      ensures r.memo in s
    {
      assert r == Relation(r.memo, r.related, true);
      assert r.memo in Children(t, s);
    }
  }

  /** ... and no memo besides those that every such set holds. */
  lemma ClosureHoldsOnly(t: Tables, user: int, s: set<int>)
    requires forall m | m in t.memos && t.memos[m].creator == user :: m in s
    requires forall r | r in t.relations && r.comment && r.memo in t.memos && r.related in s :: r.memo in s
    ensures Closure(t, user) <= s
  {
    hide Closure;
    forall m | m in Children(t, s)
      ensures m in s
    {
      var p :| p in s && Relation(m, p, true) in t.relations;
      var r := Relation(m, p, true);
      assert r in t.relations && r.comment && r.memo in t.memos && r.related in s;
    }
    forall m | m in Roots(t, user)
      ensures m in s
    {
      assert t.memos[m].creator == user;
    }
    ClosureIsLeast(t, user, s);
  }

  lemma ChildrenUnion(t: Tables, a: set<int>, b: set<int>)
    ensures Children(t, a + b) == Children(t, a) + Children(t, b)
  {
  }

  lemma ChildrenWithin(t: Tables, user: int, s: set<int>)
    requires s <= Closure(t, user)
    ensures Children(t, s) <= Closure(t, user)
  {
    hide Reachable, Roots;
    var c := Closure(t, user);
    ClosureIsClosed(t, user);
    ChildrenUnion(t, s, c);
    assert s + c == c;
  }

  // ----- The recursive query -----

  /** `WITH RECURSIVE .. UNION`: the recursive term sees the rows the last round added, and rows
      already in the result are dropped, until a round adds none. */
  function RecursiveUnion(t: Tables, working: set<int>, result: set<int>): (all: set<int>)
    decreases t.memos.Keys - result
  {
    var next := Children(t, working) - result;
    if next == {} then result
    else
      assert exists m :: m in next;
      RecursiveUnion(t, next, result + next)
  }

  function MemoTreeRecursive(t: Tables, user: int): set<int> {
    RecursiveUnion(t, Roots(t, user), Roots(t, user))
  }

  lemma {:induction false} RecursiveUnionIsClosure(t: Tables, user: int, working: set<int>, result: set<int>)
    requires Roots(t, user) <= result <= Closure(t, user) && working <= result
    requires Children(t, result - working) <= result
    ensures RecursiveUnion(t, working, result) == Closure(t, user)
    decreases t.memos.Keys - result
  {
    hide Children, Roots, Closure;
    var next := Children(t, working) - result;
    ChildrenUnion(t, working, result - working);
    assert working + (result - working) == result;
    ChildrenWithin(t, user, working);
    if next == {} {
      forall m | m in Children(t, working)
        ensures m in result
      {
        assert m !in next;
      }
      ClosureIsLeast(t, user, result);
    } else {
      var m := Member(next);
      ChildrenAreMemos(t, working);
      assert m in t.memos.Keys - result && m !in t.memos.Keys - (result + next);
      assert (result + next) - next == result;
      RecursiveUnionIsClosure(t, user, next, result + next);
    }
  }

  lemma ChildrenAreMemos(t: Tables, s: set<int>)
    ensures Children(t, s) <= t.memos.Keys
  {
  }

  /** The recursive query computes the closure, for every comment graph. */
  lemma MemoTreeRecursiveIsClosure(t: Tables, user: int)
    ensures MemoTreeRecursive(t, user) == Closure(t, user)
  {
    ClosureIsClosed(t, user);
    assert Roots(t, user) - Roots(t, user) == {};
    assert Children(t, {}) == {};
    RecursiveUnionIsClosure(t, user, Roots(t, user), Roots(t, user));
  }

  // ----- The iterative traversal -----

  function Ids(memos: seq<MemoRef>): set<int> {
    set m | m in memos :: m.id
  }

  ghost predicate Distinct(memos: seq<MemoRef>) {
    forall i, j | 0 <= i < j < |memos| :: memos[i].id != memos[j].id
  }

  /** Rows of a query for the memos `ids`: in any order, a memo perhaps more than once. */
  ghost predicate RowsFor(t: Tables, rows: seq<MemoRef>, ids: set<int>) {
    && ids <= t.memos.Keys
    && Ids(rows) == ids
    && forall r | r in rows :: r.id in t.memos && r.uid == t.memos[r.id].uid
  }

  method QueryMemoRefs(t: Tables, ids: set<int>) returns (rows: seq<MemoRef>)
    requires ids <= t.memos.Keys
    ensures RowsFor(t, rows, ids)
  {
    rows := QueryUnion(t, ids);
  }

  /** Rows of a union: each once. */
  method QueryUnion(t: Tables, ids: set<int>) returns (rows: seq<MemoRef>)
    requires ids <= t.memos.Keys
    ensures RowsFor(t, rows, ids) && Distinct(rows)
  {
    hide Ids;
    rows := [];
    var left := ids;
    NoIds();
    while left != {}
      invariant left <= ids
      invariant Ids(rows) + left == ids && Ids(rows) !! left && Distinct(rows)
      invariant forall r | r in rows :: r.id in t.memos && r.uid == t.memos[r.id].uid
    {
      ghost var some := Member(left);
      var m :| m in left;
      var row := MemoRef(m, t.memos[m].uid);
      Unseen(rows, row);
      IdsAppend(rows, row);
      rows := rows + [row];
      left := left - {m};
    }
  }

  lemma NoIds()
    ensures Ids([]) == {} && Elements<int>([]) == {}
  {
  }

  lemma IdsAppend(rows: seq<MemoRef>, row: MemoRef)
    ensures Ids(rows + [row]) == Ids(rows) + {row.id}
  {
    assert forall r :: r in rows + [row] <==> r in rows || r == row;
  }

  /** What holds between two rounds of the traversal, for the memos collected so far. */
  ghost predicate Collected(t: Tables, user: int, memos: seq<MemoRef>, seen: set<int>) {
    && RowsFor(t, memos, seen)
    && Distinct(memos)
    && Roots(t, user) <= seen <= Closure(t, user)
  }

  const DELETE_USER_BATCH_SIZE := 500

  /** The traversal of the MySQL driver, level by level and batch by batch: it ends on cyclic comment
      graphs too, and returns every memo of the closure once. */
  method MemoTreeIterative(t: Tables, user: int) returns (memos: seq<MemoRef>)
    ensures RowsFor(t, memos, Closure(t, user))
    ensures Distinct(memos)
  {
    hide Ids, Elements, Children, Roots, Closure, Flatten;
    ClosureIsClosed(t, user);
    RootsAreMemos(t, user);
    NoIds();
    var roots := QueryMemoRefs(t, Roots(t, user));
    var seen: set<int>, frontier: seq<int>;
    memos, seen, frontier := AppendUnseen(t, roots, Roots(t, user), [], {}, []);
    NoChildren(t, seen - Elements(frontier));
    while |frontier| > 0
      invariant Collected(t, user, memos, seen)
      invariant Elements(frontier) <= seen
      invariant Children(t, seen - Elements(frontier)) <= seen
      decreases t.memos.Keys - seen, |frontier|
    {
      ghost var before := seen;
      var nextFrontier: seq<int>;
      memos, seen, nextFrontier := NextLevel(t, user, frontier, memos, seen);
      ghost var level := Elements(frontier);
      ChildrenUnion(t, before - level, level);
      assert (before - level) + level == before;
      assert seen - Elements(nextFrontier) == before;
      LevelGrows(nextFrontier);
      frontier := nextFrontier;
    }
    NoIds();
    assert frontier == [];
    assert seen - Elements(frontier) == seen;
    ClosureIsLeast(t, user, seen);
  }

  lemma RootsAreMemos(t: Tables, user: int)
    ensures Roots(t, user) <= t.memos.Keys
  {
  }

  lemma NoChildren(t: Tables, s: set<int>)
    ensures s == {} ==> Children(t, s) == {}
  {
  }

  lemma LevelGrows(queue: seq<int>)
    ensures queue != [] ==> queue[0] in Elements(queue)
  {
  }

  /** One round: the comments on the frontier, queried in batches, that were not met before. */
  method NextLevel(t: Tables, ghost user: int, frontier: seq<int>, memos0: seq<MemoRef>, seen0: set<int>)
    returns (memos: seq<MemoRef>, seen: set<int>, nextFrontier: seq<int>)
    requires Collected(t, user, memos0, seen0) && Elements(frontier) <= seen0
    ensures Collected(t, user, memos, seen)
    ensures Children(t, Elements(frontier)) <= seen
    ensures seen == seen0 + Elements(nextFrontier) && seen0 !! Elements(nextFrontier)
  {
    hide Ids, Elements, Children, Roots, Closure, Flatten;
    NoIds();
    memos, seen, nextFrontier := memos0, seen0, [];
    var batches := Batches(frontier, DELETE_USER_BATCH_SIZE);
    ghost var done: set<int> := {};
    FlattenNone<int>();
    NoChildren(t, done);
    var b := 0;
    while b < |batches|
      invariant 0 <= b <= |batches|
      invariant Collected(t, user, memos, seen)
      invariant done == Elements(Flatten(batches[..b]))
      invariant Children(t, done) <= seen
      invariant seen == seen0 + Elements(nextFrontier) && seen0 !! Elements(nextFrontier)
    {
      var batch := Elements(batches[b]);
      FlattenNext(batches, b);
      ChildrenWithin(t, user, batch);
      ChildrenAreMemos(t, batch);
      var children := QueryMemoRefs(t, Children(t, batch));
      memos, seen, nextFrontier := AppendUnseen(t, children, Children(t, batch), memos, seen, nextFrontier);
      ChildrenUnion(t, done, batch);
      done := done + batch;
      b := b + 1;
    }
    assert batches[..b] == batches;
  }

  /** The memos of `rows` not met before are collected, marked as seen and queued. */
  method AppendUnseen(t: Tables, rows: seq<MemoRef>, ghost ids: set<int>, memos0: seq<MemoRef>, seen0: set<int>,
                      queue0: seq<int>)
    returns (memos: seq<MemoRef>, seen: set<int>, queue: seq<int>)
    requires RowsFor(t, rows, ids) && RowsFor(t, memos0, seen0) && Distinct(memos0)
    ensures RowsFor(t, memos, seen) && Distinct(memos)
    ensures seen == seen0 + ids
    ensures Elements(queue) == Elements(queue0) + (ids - seen0)
  {
    hide Ids, Elements;
    memos, seen, queue := memos0, seen0, queue0;
    NoIds();
    ghost var met: set<int> := {};
    var i := 0;
    while i < |rows|
      invariant 0 <= i <= |rows|
      invariant RowsFor(t, memos, seen) && Distinct(memos)
      invariant met == Ids(rows[..i])
      invariant seen == seen0 + met
      invariant Elements(queue) == Elements(queue0) + (met - seen0)
    {
      assert rows[..i + 1] == rows[..i] + [rows[i]];
      assert rows[i] in rows;
      IdsAppend(rows[..i], rows[i]);
      met := met + {rows[i].id};
      if rows[i].id !in seen {
        Unseen(memos, rows[i]);
        IdsAppend(memos, rows[i]);
        ElementsAppend(queue, rows[i].id);
        seen := seen + {rows[i].id};
        memos := memos + [rows[i]];
        queue := queue + [rows[i].id];
      }
      i := i + 1;
    }
    assert rows[..i] == rows;
  }

  lemma Unseen(memos: seq<MemoRef>, row: MemoRef)
    requires Distinct(memos) && row.id !in Ids(memos)
    ensures Distinct(memos + [row])
  {
    forall i | 0 <= i < |memos|
      ensures memos[i].id != row.id
    {
      assert memos[i] in memos;
    }
  }

  // ----- Batches -----

  function Flatten<T>(batches: seq<seq<T>>): seq<T> {
    if batches == [] then [] else Flatten(batches[..|batches| - 1]) + batches[|batches| - 1]
  }

  lemma FlattenNone<T>()
    ensures Flatten<T>([]) == []
  {
  }

  lemma FlattenNext<T>(batches: seq<seq<T>>, b: nat)
    requires b < |batches|
    ensures Elements(Flatten(batches[..b + 1])) == Elements(Flatten(batches[..b])) + Elements(batches[b])
    ensures Elements(batches[b]) <= Elements(Flatten(batches))
  {
    assert batches[..b + 1][..b] == batches[..b];
    ElementsConcat(Flatten(batches[..b]), batches[b]);
    InFlatten(batches, b);
  }

  lemma {:induction false} InFlatten<T>(batches: seq<seq<T>>, b: nat)
    requires b < |batches|
    ensures Elements(batches[b]) <= Elements(Flatten(batches))
    decreases |batches|
  {
    var n := |batches| - 1;
    if b < n {
      InFlatten(batches[..n], b);
    }
  }

  /** Consecutive pieces of at most `size` values, or one piece when the size is not positive. */
  method Batches<T>(values: seq<T>, size: int) returns (batches: seq<seq<T>>)
    ensures Flatten(batches) == values
    ensures forall b | 0 <= b < |batches| :: batches[b] != [] && (size > 0 ==> |batches[b]| <= size)
  {
    if |values| == 0 {
      return [];
    }
    var step := if size <= 0 then |values| else size;
    batches := [];
    var start := 0;
    while start < |values|
      invariant 0 <= start
      invariant Flatten(batches) == values[..if start > |values| then |values| else start]
      invariant forall b | 0 <= b < |batches| :: batches[b] != [] && |batches[b]| <= step
    {
      var end := start + step;
      if end > |values| {
        end := |values|;
      }
      ghost var next := batches + [values[start..end]];
      assert next[..|next| - 1] == batches;
      assert values[..start] + values[start..end] == values[..end];
      batches := batches + [values[start..end]];
      start := start + step;
    }
    assert values[..|values|] == values;
  }
}
