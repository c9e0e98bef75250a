/** Deleting a user with everything that belongs to or refers to them, in one transaction. */
module UserDelete {
  import opened CommentTree
  import opened Sets
  import opened Texts

  datatype Driver = MySQL | Postgres

  // ----- Statements -----

  datatype Target = Attachments | MemoShares | Inboxes | Relations | Memos
  datatype Owned = Reactions | Shares | Identities | Settings | UserRow

  datatype Statement =
    | DeleteIn(target: Target, ids: seq<int>)
    | DeleteReactionsIn(contents: seq<string>)
    | DeleteOwned(owned: Owned, user: int)

  function Exec(t: Tables, s: Statement): Tables {
    match s
    case DeleteIn(Attachments, ids) => t.(attachments := t.attachments - Elements(ids))
    case DeleteIn(MemoShares, ids) =>
      t.(shares := map k | k in t.shares && t.shares[k].memo !in ids :: t.shares[k])
    case DeleteIn(Inboxes, ids) => t.(inboxes := t.inboxes - Elements(ids))
    case DeleteIn(Relations, ids) =>
      t.(relations := set r | r in t.relations && r.memo !in ids && r.related !in ids)
    case DeleteIn(Memos, ids) => t.(memos := t.memos - Elements(ids))
    case DeleteReactionsIn(contents) =>
      t.(reactions := map k | k in t.reactions && t.reactions[k].content !in contents :: t.reactions[k])
    case DeleteOwned(Reactions, user) =>
      t.(reactions := map k | k in t.reactions && t.reactions[k].creator != user :: t.reactions[k])
    case DeleteOwned(Shares, user) =>
      t.(shares := map k | k in t.shares && t.shares[k].creator != user :: t.shares[k])
    case DeleteOwned(Identities, user) =>
      t.(identities := map k | k in t.identities && t.identities[k] != user :: t.identities[k])
    case DeleteOwned(Settings, user) =>
      t.(settings := map k | k in t.settings && k.0 != user :: t.settings[k])
    case DeleteOwned(UserRow, user) => t.(users := t.users - {user})
  }

  /** Deleting by two lists one after the other is deleting by both at once. */
  lemma DeleteJoins(t: Tables, target: Target, a: seq<int>, b: seq<int>)
    ensures Exec(Exec(t, DeleteIn(target, a)), DeleteIn(target, b)) == Exec(t, DeleteIn(target, a + b))
    ensures Exec(t, DeleteIn(target, [])) == t
  {
    ElementsConcat(a, b);
  }

  lemma DeleteReactionsJoins(t: Tables, a: seq<string>, b: seq<string>)
    ensures Exec(Exec(t, DeleteReactionsIn(a)), DeleteReactionsIn(b)) == Exec(t, DeleteReactionsIn(a + b))
    ensures Exec(t, DeleteReactionsIn([])) == t
  {
  }

  // ----- Placeholders -----

  predicate InRange<T>(placeholders: seq<nat>, args: seq<T>) {
    forall i | 0 <= i < |placeholders| :: 1 <= placeholders[i] <= |args|
  }

  /** The values that numbered placeholders stand for. */
  function Bound<T>(placeholders: seq<nat>, args: seq<T>): seq<T>
    requires InRange(placeholders, args)
  {
    seq(|placeholders|, i requires 0 <= i < |placeholders| => args[placeholders[i] - 1])
  }

  /** An IN clause whose placeholders are numbered from `start`, with its arguments. */
  method InClause<T>(start: nat, values: seq<T>) returns (placeholders: seq<nat>, args: seq<T>)
    ensures args == values
    ensures |placeholders| == |values| && forall i | 0 <= i < |values| :: placeholders[i] == start + i
  {
    placeholders, args := [], [];
    for i := 0 to |values|
      invariant args == values[..i]
      invariant |placeholders| == i && forall k | 0 <= k < i :: placeholders[k] == start + k
    {
      placeholders := placeholders + [start + i];
      args := args + [values[i]];
    }
  }

  /** `memo_id IN (..) OR related_memo_id IN (..)`: in one statement the second clause goes on counting where
      the first stops, and both denote the batch. */
  method RelationClauses<T>(batch: seq<T>) returns (memoClause: seq<nat>, relatedClause: seq<nat>, args: seq<T>)
    ensures InRange(memoClause, args) && InRange(relatedClause, args)
    ensures Bound(memoClause, args) == batch && Bound(relatedClause, args) == batch
  {
    var relatedArgs;
    memoClause, args := InClause(1, batch);
    relatedClause, relatedArgs := InClause(|args| + 1, batch);
    args := args + relatedArgs;
  }

  // ----- The transaction -----

  /** A transaction works on a copy of the tables; any of its steps may fail. */
  class Tx {
    var work: Tables
    var steps: nat
    const fails: nat -> bool

    constructor (t: Tables, fails: nat -> bool)
      ensures work == t && steps == 0 && this.fails == fails
    {
      this.work, this.steps, this.fails := t, 0, fails;
    }

    /** A query, or the decoding of its rows. */
    method Query() returns (ok: bool)
      modifies this`steps
      ensures steps == old(steps) + 1 && ok == !fails(old(steps))
    {
      ok := !fails(steps);
      steps := steps + 1;
    }

    method Run(s: Statement) returns (ok: bool)
      modifies this
      ensures steps == old(steps) + 1 && ok == !fails(old(steps))
      ensures work == if ok then Exec(old(work), s) else old(work)
    {
      ok := !fails(steps);
      steps := steps + 1;
      if ok {
        work := Exec(work, s);
      }
    }

    /** Deleting in batches has the effect of one delete by the whole list. */
    method RunInBatches(target: Target, ids: seq<int>) returns (ok: bool)
      modifies this
      ensures ok ==> work == Exec(old(work), DeleteIn(target, ids))
      ensures (forall n :: !fails(n)) ==> ok
    {
      hide Exec, Flatten;
      var batches := Batches(ids, DELETE_USER_BATCH_SIZE);
      FlattenNone<int>();
      DeleteJoins(work, target, [], []);
      var b := 0;
      while b < |batches|
        invariant 0 <= b <= |batches|
        invariant work == Exec(old(work), DeleteIn(target, Flatten(batches[..b])))
      {
        ok := Run(DeleteIn(target, batches[b]));
        if !ok {
          return false;
        }
        FlattenStep(batches, b);
        DeleteJoins(old(work), target, Flatten(batches[..b]), batches[b]);
        b := b + 1;
      }
      assert batches[..b] == batches;
      return true;
    }

    method RunReactionsInBatches(contents: seq<string>) returns (ok: bool)
      modifies this
      ensures ok ==> work == Exec(old(work), DeleteReactionsIn(contents))
      ensures (forall n :: !fails(n)) ==> ok
    {
      hide Exec, Flatten;
      var batches := Batches(contents, DELETE_USER_BATCH_SIZE);
      FlattenNone<string>();
      DeleteReactionsJoins(work, [], []);
      var b := 0;
      while b < |batches|
        invariant 0 <= b <= |batches|
        invariant work == Exec(old(work), DeleteReactionsIn(Flatten(batches[..b])))
      {
        ok := Run(DeleteReactionsIn(batches[b]));
        if !ok {
          return false;
        }
        FlattenStep(batches, b);
        DeleteReactionsJoins(old(work), Flatten(batches[..b]), batches[b]);
        b := b + 1;
      }
      assert batches[..b] == batches;
      return true;
    }
  }

  lemma FlattenStep<T>(batches: seq<seq<T>>, b: nat)
    requires b < |batches|
    ensures Flatten(batches[..b + 1]) == Flatten(batches[..b]) + batches[b]
  {
    assert batches[..b + 1][..b] == batches[..b];
  }

  // ----- What is deleted -----

  predicate Touches(m: Message, memos: set<int>) {
    m != Other && ((m.memo != 0 && m.memo in memos) || (m.related != 0 && m.related in memos))
  }

  predicate AttachmentGoes(a: Attachment, user: int, memos: set<int>) {
    a.creator == user || (a.memo.Some? && a.memo.value in memos)
  }

  predicate InboxGoes(i: Inbox, user: int, memos: set<int>) {
    i.sender == user || i.receiver == user || Touches(i.message, memos)
  }

  function ContentId(m: Memo): string { "memos/" + m.uid }

  /** The tables without the user, the memos of the closure, and every row that belongs to or refers to them. */
  ghost function Deleted(t: Tables, user: int): Tables {
    var gone := Closure(t, user);
    Tables(
      t.users - {user},
      t.memos - gone,
      set r | r in t.relations && r.memo !in gone && r.related !in gone,
      map k | k in t.attachments && !AttachmentGoes(t.attachments[k], user, gone) :: t.attachments[k],
      map k | k in t.reactions && t.reactions[k].creator != user
              && (forall m | m in gone :: t.reactions[k].content != ContentId(t.memos[m])) :: t.reactions[k],
      map k | k in t.shares && t.shares[k].creator != user && t.shares[k].memo !in gone :: t.shares[k],
      map k | k in t.inboxes && !InboxGoes(t.inboxes[k], user, gone) :: t.inboxes[k],
      map k | k in t.identities && t.identities[k] != user :: t.identities[k],
      map k | k in t.settings && k.0 != user :: t.settings[k])
  }

  /** Row by row, what a deletion leaves: a row stays, unchanged, if and only if it neither belongs to the user nor
      refers to the user or to a memo of the closure. */
  lemma DeletedRows(t: Tables, user: int)
    ensures var d, gone := Deleted(t, user), Closure(t, user);
      && (forall u :: u in d.users <==> u in t.users && u != user)
      && (forall m :: m in d.memos <==> m in t.memos && m !in gone)
      && (forall r :: r in d.relations <==> r in t.relations && r.memo !in gone && r.related !in gone)
      && (forall a :: a in d.attachments <==>
            && a in t.attachments && t.attachments[a].creator != user
            && (t.attachments[a].memo.Some? ==> t.attachments[a].memo.value !in gone))
      && (forall k :: k in d.reactions <==>
            && k in t.reactions && t.reactions[k].creator != user
            && forall m | m in gone :: t.reactions[k].content != "memos/" + t.memos[m].uid)
      && (forall k :: k in d.shares <==>
            k in t.shares && t.shares[k].creator != user && t.shares[k].memo !in gone)
      && (forall i :: i in d.inboxes <==>
            && i in t.inboxes && t.inboxes[i].sender != user && t.inboxes[i].receiver != user
            && (t.inboxes[i].message != Other ==>
                  && (t.inboxes[i].message.memo == 0 || t.inboxes[i].message.memo !in gone)
                  && (t.inboxes[i].message.related == 0 || t.inboxes[i].message.related !in gone)))
      && (forall k :: k in d.identities <==> k in t.identities && t.identities[k] != user)
      && (forall k :: k in d.settings <==> k in t.settings && k.0 != user)
    ensures var d := Deleted(t, user);
      && (forall k | k in d.memos :: d.memos[k] == t.memos[k])
      && (forall k | k in d.attachments :: d.attachments[k] == t.attachments[k])
      && (forall k | k in d.reactions :: d.reactions[k] == t.reactions[k])
      && (forall k | k in d.shares :: d.shares[k] == t.shares[k])
      && (forall k | k in d.inboxes :: d.inboxes[k] == t.inboxes[k])
      && (forall k | k in d.identities :: d.identities[k] == t.identities[k])
      && (forall k | k in d.settings :: d.settings[k] == t.settings[k])
  {
    hide Reachable;
  }

  /** Every reference in the tables leads to a row. */
  ghost predicate ReferencesResolve(t: Tables) {
    && (forall m | m in t.memos :: t.memos[m].creator in t.users)
    && (forall r | r in t.relations :: r.memo in t.memos && r.related in t.memos)
    && (forall a | a in t.attachments ::
          && t.attachments[a].creator in t.users
          && (t.attachments[a].memo.Some? ==> t.attachments[a].memo.value in t.memos))
    && (forall r | r in t.reactions ::
          && t.reactions[r].creator in t.users
          && exists m :: m in t.memos && t.reactions[r].content == "memos/" + t.memos[m].uid)
    && (forall s | s in t.shares :: t.shares[s].creator in t.users && t.shares[s].memo in t.memos)
    && (forall i | i in t.inboxes ::
          && t.inboxes[i].sender in t.users && t.inboxes[i].receiver in t.users
          && (t.inboxes[i].message != Other ==>
                && (t.inboxes[i].message.memo != 0 ==> t.inboxes[i].message.memo in t.memos)
                && (t.inboxes[i].message.related != 0 ==> t.inboxes[i].message.related in t.memos)))
    && (forall i | i in t.identities :: t.identities[i] in t.users)
    && (forall k | k in t.settings :: k.0 in t.users)
  }

  /** A deletion leaves no dangling reference behind, and no trace of the user. */
  lemma DeletionKeepsReferences(t: Tables, user: int)
    requires ReferencesResolve(t)
    ensures ReferencesResolve(Deleted(t, user))
    ensures user !in Deleted(t, user).users && Roots(Deleted(t, user), user) == {}
  {
    hide Closure;
    var d := Deleted(t, user);
    ClosureIsClosed(t, user);
    forall m | m in d.memos
      ensures d.memos[m].creator in d.users && d.memos[m].creator != user
    {
      assert m !in Roots(t, user);
    }
    forall r | r in d.reactions
      ensures exists m :: m in d.memos && d.reactions[r].content == "memos/" + d.memos[m].uid
    {
      var m :| m in t.memos && t.reactions[r].content == "memos/" + t.memos[m].uid;
      assert m in d.memos;
    }
  }

  // ----- Collecting the targets -----

  datatype Targets = Targets(
    memos: seq<MemoRef>, attachmentIds: seq<int>, inboxIds: seq<int>, settingKeys: seq<string>)

  ghost predicate TargetsOf(t: Tables, user: int, targets: Targets) {
    var gone := Closure(t, user);
    && RowsFor(t, targets.memos, gone) && Distinct(targets.memos)
    && NoRepeats(targets.attachmentIds) && NoRepeats(targets.inboxIds)
    && Elements(targets.attachmentIds) == (set a | a in t.attachments && AttachmentGoes(t.attachments[a], user, gone))
    && Elements(targets.inboxIds) == (set i | i in t.inboxes && InboxGoes(t.inboxes[i], user, gone))
    && Elements(targets.settingKeys) == (set k | k in t.settings && k.0 == user :: k.1)
  }

  /** The rows of a query by key, in any order. */
  method QueryRows<T(==,!new)>(ids: set<T>) returns (rows: seq<T>)
    ensures Elements(rows) == ids && NoRepeats(rows)
  {
    rows := [];
    var left := ids;
    while left != {}
      invariant left <= ids
      invariant Elements(rows) + left == ids && Elements(rows) !! left && NoRepeats(rows)
    {
      ghost var some := Member(left);
      var x :| x in left;
      assert x in rows ==> x in Elements(rows);
      NoRepeatsAppend(rows, x);
      ElementsAppend(rows, x);
      rows := rows + [x];
      left := left - {x};
    }
  }

  method ListMemoTree(driver: Driver, t: Tables, user: int) returns (memos: seq<MemoRef>)
    ensures RowsFor(t, memos, Closure(t, user)) && Distinct(memos)
  {
    hide Closure;
    match driver {
      case MySQL =>
        memos := MemoTreeIterative(t, user);
      case Postgres =>
        MemoTreeRecursiveIsClosure(t, user);
        ClosureAreMemos(t, user);
        memos := QueryUnion(t, MemoTreeRecursive(t, user));
    }
  }

  lemma ClosureAreMemos(t: Tables, user: int)
    ensures Closure(t, user) <= t.memos.Keys
  {
  }

  /** Attachments of the user, then those of the memos batch by batch, each once. */
  method ListAttachments(t: Tables, user: int, memoIds: seq<int>) returns (ids: seq<int>)
    ensures Elements(ids) ==
      set a | a in t.attachments && AttachmentGoes(t.attachments[a], user, Elements(memoIds))
    ensures NoRepeats(ids)
    ensures forall a :: a in ids <==>
      && a in t.attachments
      && (t.attachments[a].creator == user ||
          (t.attachments[a].memo.Some? && t.attachments[a].memo.value in memoIds))
  {
    ids := QueryRows(set a | a in t.attachments && t.attachments[a].creator == user);
    var batches := Batches(memoIds, DELETE_USER_BATCH_SIZE);
    FlattenNone<int>();
    var b := 0;
    while b < |batches|
      invariant 0 <= b <= |batches| && NoRepeats(ids)
      invariant Elements(ids) ==
        set a | a in t.attachments && AttachmentGoes(t.attachments[a], user, Elements(Flatten(batches[..b])))
    {
      var rows := QueryRows(set a | a in t.attachments && t.attachments[a].memo.Some?
                                    && t.attachments[a].memo.value in batches[b]);
      FlattenNext(batches, b);
      ids := AppendNew(ids, rows);
      b := b + 1;
    }
    assert batches[..b] == batches;
    InElements(ids);
    InElements(memoIds);
  }

  method AppendNew(ids: seq<int>, rows: seq<int>) returns (all: seq<int>)
    requires NoRepeats(ids)
    ensures Elements(all) == Elements(ids) + Elements(rows) && NoRepeats(all)
  {
    all := ids;
    for i := 0 to |rows|
      invariant NoRepeats(all)
      invariant Elements(all) == Elements(ids) + Elements(rows[..i])
    {
      assert rows[..i + 1] == rows[..i] + [rows[i]];
      ElementsAppend(rows[..i], rows[i]);
      if rows[i] !in all {
        ElementsAppend(all, rows[i]);
        all := all + [rows[i]];
      }
    }
    assert rows[..|rows|] == rows;
  }

  /** Inbox items of the user, then, if there are memos to delete, those of others that refer to one. */
  method ListInboxes(t: Tables, user: int, memoIds: set<int>) returns (ids: seq<int>)
    ensures Elements(ids) == (set i | i in t.inboxes && InboxGoes(t.inboxes[i], user, memoIds)) && NoRepeats(ids)
    ensures forall i :: i in ids <==>
      && i in t.inboxes
      && var item := t.inboxes[i];
         || item.sender == user || item.receiver == user
         || (item.message != Other && item.message.memo != 0 && item.message.memo in memoIds)
         || (item.message != Other && item.message.related != 0 && item.message.related in memoIds)
  {
    var direct := QueryRows(set i | i in t.inboxes && (t.inboxes[i].sender == user || t.inboxes[i].receiver == user));
    if memoIds == {} {
      InElements(direct);
      return direct;
    }
    var others := QueryRows(set i | i in t.inboxes && t.inboxes[i].sender != user && t.inboxes[i].receiver != user);
    var referring: seq<int> := [];
    for k := 0 to |others|
      invariant NoRepeats(referring)
      invariant Elements(referring) ==
        set i | i in others[..k] && i in t.inboxes && Touches(t.inboxes[i].message, memoIds)
    {
      assert others[k] in Elements(others);
      if Touches(t.inboxes[others[k]].message, memoIds) {
        assert forall x :: x in referring <==> x in Elements(referring);
        NoRepeatsAppend(referring, others[k]);
        ElementsAppend(referring, others[k]);
        referring := referring + [others[k]];
      }
    }
    assert others[..|others|] == others;
    forall i
      ensures i in others <==> i in t.inboxes && t.inboxes[i].sender != user && t.inboxes[i].receiver != user
    {
      assert i in others <==> i in Elements(others);
    }
    ElementsConcat(direct, referring);
    NoRepeatsConcat(direct, referring);
    InElements(direct + referring);
    return direct + referring;
  }

  lemma InElements(ids: seq<int>)
    ensures forall i :: i in ids <==> i in Elements(ids)
  {
  }

  method CollectTargets(driver: Driver, t: Tables, user: int) returns (targets: Targets)
    ensures TargetsOf(t, user, targets)
  {
    hide Closure;
    var memos := ListMemoTree(driver, t, user);
    var memoIds := seq(|memos|, i requires 0 <= i < |memos| => memos[i].id);
    IdsOf(memos, memoIds);
    var attachmentIds := ListAttachments(t, user, memoIds);
    var settingKeys := QueryRows(set k | k in t.settings && k.0 == user :: k.1);
    var inboxIds := ListInboxes(t, user, Elements(memoIds));
    targets := Targets(memos, attachmentIds, inboxIds, settingKeys);
  }

  lemma IdsOf(memos: seq<MemoRef>, ids: seq<int>)
    requires |ids| == |memos| && forall i | 0 <= i < |memos| :: ids[i] == memos[i].id
    ensures Elements(ids) == Ids(memos)
  {
    forall x | x in Ids(memos)
      ensures x in Elements(ids)
    {
      var m :| m in memos && m.id == x;
      var i :| 0 <= i < |memos| && memos[i] == m;
      assert ids[i] == x;
    }
  }

  // ----- Deleting -----

  /** The effect of the statements of the transaction, in their order. */
  function Sweep(t: Tables, user: int, targets: Targets, memoIds: seq<int>, contents: seq<string>): Tables {
    var t1 := Exec(t, DeleteReactionsIn(contents));
    var t2 := Exec(t1, DeleteIn(Attachments, targets.attachmentIds));
    var t3 := Exec(t2, DeleteOwned(Reactions, user));
    var t4 := Exec(t3, DeleteOwned(Shares, user));
    var t5 := Exec(t4, DeleteIn(MemoShares, memoIds));
    var t6 := Exec(t5, DeleteIn(Inboxes, targets.inboxIds));
    var t7 := Exec(t6, DeleteOwned(Identities, user));
    var t8 := Exec(t7, DeleteOwned(Settings, user));
    var t9 := Exec(t8, DeleteIn(Relations, memoIds));
    var t10 := Exec(t9, DeleteIn(Memos, memoIds));
    Exec(t10, DeleteOwned(UserRow, user))
  }

  method DeleteTargets(tx: Tx, user: int, targets: Targets) returns (ok: bool)
    modifies tx
    ensures ok ==>
      exists memoIds, contents ::
        MemoLists(targets, memoIds, contents) && tx.work == Sweep(old(tx.work), user, targets, memoIds, contents)
    ensures (forall n :: !tx.fails(n)) ==> ok
  {
    hide Exec;
    var memos := targets.memos;
    var memoIds := seq(|memos|, i requires 0 <= i < |memos| => memos[i].id);
    var contents := seq(|memos|, i requires 0 <= i < |memos| => "memos/" + memos[i].uid);
    ok := tx.RunReactionsInBatches(contents);
    if !ok { return false; }
    ok := tx.RunInBatches(Attachments, targets.attachmentIds);
    if !ok { return false; }
    ok := tx.Run(DeleteOwned(Reactions, user));
    if !ok { return false; }
    ok := tx.Run(DeleteOwned(Shares, user));
    if !ok { return false; }
    ok := tx.RunInBatches(MemoShares, memoIds);
    if !ok { return false; }
    ok := tx.RunInBatches(Inboxes, targets.inboxIds);
    if !ok { return false; }
    ok := tx.Run(DeleteOwned(Identities, user));
    if !ok { return false; }
    ok := tx.Run(DeleteOwned(Settings, user));
    if !ok { return false; }
    ok := tx.RunInBatches(Relations, memoIds);
    if !ok { return false; }
    ok := tx.RunInBatches(Memos, memoIds);
    if !ok { return false; }
    ok := tx.Run(DeleteOwned(UserRow, user));
    assert MemoLists(targets, memoIds, contents);
  }

  ghost predicate MemoLists(targets: Targets, memoIds: seq<int>, contents: seq<string>) {
    && |memoIds| == |contents| == |targets.memos|
    && (forall i | 0 <= i < |memoIds| :: memoIds[i] == targets.memos[i].id)
    && (forall i | 0 <= i < |memoIds| :: contents[i] == "memos/" + targets.memos[i].uid)
  }

  /** What each table is left with after the statements that touch it. */
  lemma SweepOnce(t: Tables, user: int, targets: Targets, memoIds: seq<int>, contents: seq<string>)
    ensures var d := Sweep(t, user, targets, memoIds, contents);
      && d.users == t.users - {user}
      && d.memos == t.memos - Elements(memoIds)
      && d.relations == (set r | r in t.relations && r.memo !in memoIds && r.related !in memoIds)
      && d.attachments == t.attachments - Elements(targets.attachmentIds)
      && d.inboxes == t.inboxes - Elements(targets.inboxIds)
      && d.identities == (map k | k in t.identities && t.identities[k] != user :: t.identities[k])
      && d.settings == (map k | k in t.settings && k.0 != user :: t.settings[k])
  {
    hide Elements;
  }

  /** Reactions and shares are deleted from twice. */
  lemma SweepTwice(t: Tables, user: int, targets: Targets, memoIds: seq<int>, contents: seq<string>)
    ensures var d := Sweep(t, user, targets, memoIds, contents);
      && d.reactions == (map k | k in t.reactions && t.reactions[k].content !in contents
                                 && t.reactions[k].creator != user :: t.reactions[k])
      && d.shares == (map k | k in t.shares && t.shares[k].creator != user
                              && t.shares[k].memo !in memoIds :: t.shares[k])
  {
    hide Elements;
  }

  /** Eleven deletes by collected lists amount to the deletion that the closure describes. */
  lemma SweepIsDeletion(t: Tables, user: int, targets: Targets, memoIds: seq<int>, contents: seq<string>)
    requires TargetsOf(t, user, targets) && MemoLists(targets, memoIds, contents)
    ensures Sweep(t, user, targets, memoIds, contents) == Deleted(t, user)
  {
    hide Closure, Sweep, AttachmentGoes, InboxGoes;
    var gone := Closure(t, user);
    IdsOf(targets.memos, memoIds);
    SweepOnce(t, user, targets, memoIds, contents);
    SweepTwice(t, user, targets, memoIds, contents);
    var d, e := Sweep(t, user, targets, memoIds, contents), Deleted(t, user);
    assert d.reactions == e.reactions by {
      forall c
        ensures c in contents <==> exists m :: m in gone && c == ContentId(t.memos[m])
      {
        ContentsOf(t, targets.memos, gone, contents, c);
      }
    }
    assert d.attachments == e.attachments;
    assert d.inboxes == e.inboxes;
    assert d.shares == e.shares by { SameMembers(memoIds, gone); }
    assert d.relations == e.relations by { SameMembers(memoIds, gone); }
  }

  lemma SameMembers(ids: seq<int>, s: set<int>)
    requires Elements(ids) == s
    ensures forall x :: x in ids <==> x in s
  {
    forall x
      ensures x in ids <==> x in s
    {
      assert x in ids <==> x in Elements(ids);
    }
  }

  lemma ContentsOf(t: Tables, memos: seq<MemoRef>, gone: set<int>, contents: seq<string>, c: string)
    requires RowsFor(t, memos, gone)
    requires |contents| == |memos| && forall i | 0 <= i < |memos| :: contents[i] == "memos/" + memos[i].uid
    ensures c in contents <==> exists m :: m in gone && c == ContentId(t.memos[m])
  {
    if c in contents {
      var i :| 0 <= i < |contents| && contents[i] == c;
      assert memos[i] in memos;
      assert memos[i].id in gone && c == ContentId(t.memos[memos[i].id]);
    }
    if m :| m in gone && c == ContentId(t.memos[m]) {
      var r :| r in memos && r.id == m;
      var i :| 0 <= i < |memos| && memos[i] == r;
      assert contents[i] == c;
    }
  }

  lemma AttachmentsGone(t: Tables, user: int, targets: Targets)
    requires TargetsOf(t, user, targets)
    ensures Elements(targets.attachmentIds) == t.attachments.Keys - Deleted(t, user).attachments.Keys
  {
    hide Closure, AttachmentGoes, InboxGoes;
  }

  // ----- The operation -----

  datatype Outcome = Removed(attachmentIds: seq<int>, settingKeys: seq<string>) | Failed

  class Database {
    var tables: Tables

    constructor (t: Tables)
      ensures tables == t
    {
      tables := t;
    }

    /** All or nothing: either every table has lost exactly what the deletion takes, or nothing has changed. The two
        drivers differ only in how they find the memos. */
    method DeleteUser(driver: Driver, user: int, fails: nat -> bool, failBeforeCommit: bool) returns (r: Outcome)
      modifies this
      ensures r.Failed? ==> tables == old(tables)
      ensures !r.Failed? ==> tables == Deleted(old(tables), user)
      ensures !r.Failed? ==>
        Elements(r.settingKeys) == set k | k in old(tables).settings && k.0 == user :: k.1
      ensures !r.Failed? ==> Elements(r.attachmentIds) == old(tables).attachments.Keys - tables.attachments.Keys
      ensures !failBeforeCommit && (forall n :: !fails(n)) ==> !r.Failed?
    {
      hide Deleted, Sweep, Closure;
      var tx := new Tx(tables, fails);
      var ok := tx.Query();
      if !ok {
        return Failed;
      }
      var targets := CollectTargets(driver, tx.work, user);
      ok := DeleteTargets(tx, user, targets);
      if !ok || failBeforeCommit {
        return Failed;
      }
      ghost var memoIds, contents :|
        MemoLists(targets, memoIds, contents) && tx.work == Sweep(tables, user, targets, memoIds, contents);
      SweepIsDeletion(tables, user, targets, memoIds, contents);
      ok := tx.Query();
      if !ok {
        return Failed;
      }
      AttachmentsGone(tables, user, targets);
      tables := tx.work;
      return Removed(targets.attachmentIds, targets.settingKeys);
    }
  }
}
