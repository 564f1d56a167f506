/** The history store: get_or_create_dialog, get_history, save_message,
    _cleanup_old_messages and clear_history acting on the `dialogs` and
    `messages` tables, each call taken as one sequential step. */
module Crud {
  import opened Types
  import opened Models
  import opened CrudSpec

  /** A list reversed in place, as `list.reverse()` does. */
  method ReverseInPlace<T>(a: array<T>)
    modifies a
    ensures a[..] == Reversed(old(a[..]))
  {
    var lo, hi := 0, a.Length - 1;
    while lo < hi
      invariant 0 <= lo <= a.Length && hi == a.Length - 1 - lo
      invariant forall k :: 0 <= k < lo ==> a[k] == old(a[a.Length - 1 - k]) && a[a.Length - 1 - k] == old(a[k])
      invariant forall k :: lo <= k <= hi ==> a[k] == old(a[k])
    {
      a[lo], a[hi] := a[hi], a[lo];
      lo, hi := lo + 1, hi - 1;
    }
  }

  /** `messages.reverse()` on the list the query returned. */
  method ReversedCopy<T>(rows: seq<T>) returns (r: seq<T>)
    ensures r == Reversed(rows)
  {
    var a := new T[|rows|](i requires 0 <= i < |rows| => rows[i]);
    assert a[..] == rows;
    ReverseInPlace(a);
    r := a[..];
  }

  /** The scan behind `SELECT id ... WHERE dialog_id = did LIMIT k` in
      storage order: the ids of the dialog's first `k` rows. */
  method FirstIdsOf(ms: seq<Message>, did: nat, k: nat) returns (ids: seq<nat>)
    ensures ids == HeadIds(MessagesOf(ms, did), k)
  {
    ids := [];
    var i := 0;
    while i < |ms|
      invariant 0 <= i <= |ms|
      invariant ids == HeadIds(MessagesOf(ms[..i], did), k)
    {
      HeadIdsStep(ms, i, did, k, ids);
      if ms[i].dialogId == did && |ids| < k {
        ids := ids + [ms[i].id];
      }
      i := i + 1;
    }
    ScanDone(ms, did);
  }

  /** The scan behind `SELECT ... WHERE dialog_id = did ORDER BY id DESC
      LIMIT limit`: backwards from the newest row until `limit` rows of the
      dialog are read. */
  method NewestRowsOf(ms: seq<Message>, did: nat, limit: nat) returns (rows: seq<Message>)
    ensures rows == Reversed(LastN(MessagesOf(ms, did), limit))
  {
    rows := [];
    var i := |ms|;
    while i > 0 && |rows| < limit
      invariant 0 <= i <= |ms|
      invariant rows == ScanOf(ms[i..], did, limit)
      decreases i
    {
      i := i - 1;
      assert ms[i..][1..] == ms[i + 1..];
      if ms[i].dialogId == did {
        rows := rows + [ms[i]];
      }
    }
    if i > 0 {
      ScanOfFull(ms, 0, i, did, limit);
    }
    ScanOfWindow(ms, did, limit);
    assert ms[0..] == ms;
  }

  /** The two tables, the autoincrement counters and the configuration the
      operations read. */
  class HistoryStore {
    /** `config.MAX_CONTEXT_MESSAGES`: the per-dialog cap and the default window. */
    const maxContext: nat
    /** The `created_at` column defaults: one timestamp each, taken when the
        schema module is loaded and given to every row this process inserts. */
    const dialogCreatedAt: int
    const messageCreatedAt: int

    var dialogs: seq<Dialog>
    var messages: seq<Message>
    var nextDialogId: nat
    var nextMessageId: nat

    /** The store invariant: the schema's constraints hold, the counters are
        ahead of every key in use, and the messages' `created_at` never falls
        as ids rise and never passes this process's column default. */
    ghost predicate Valid()
      reads this
    {
      StoreInvariant(dialogs, messages, nextDialogId, nextMessageId, messageCreatedAt)
    }

    /** No dialog holds more than `maxContext` messages. */
    ghost predicate WithinCap()
      reads this
    {
      CapRespected(messages, maxContext)
    }

    /** Empty tables, as `create_all` leaves them. */
    constructor (maxContext: nat, dialogCreatedAt: int, messageCreatedAt: int)
      ensures Valid()
      ensures this.maxContext == maxContext
      ensures this.dialogCreatedAt == dialogCreatedAt && this.messageCreatedAt == messageCreatedAt
      ensures dialogs == [] && messages == []
      ensures WithinCap()
    {
      this.maxContext := maxContext;
      this.dialogCreatedAt := dialogCreatedAt;
      this.messageCreatedAt := messageCreatedAt;
      dialogs, messages := [], [];
      nextDialogId, nextMessageId := 1, 1;
    }

    /** The tables a previous process run left in the database file, opened by
        a new run whose column defaults were taken at its own start. */
    constructor Reopen(maxContext: nat, dialogCreatedAt: int, messageCreatedAt: int,
                       dialogs: seq<Dialog>, messages: seq<Message>, nextDialogId: nat, nextMessageId: nat)
      requires StoreInvariant(dialogs, messages, nextDialogId, nextMessageId, messageCreatedAt)
      ensures Valid()
      ensures this.maxContext == maxContext
      ensures this.dialogCreatedAt == dialogCreatedAt && this.messageCreatedAt == messageCreatedAt
      ensures this.dialogs == dialogs && this.messages == messages
      ensures this.nextDialogId == nextDialogId && this.nextMessageId == nextMessageId
    {
      this.maxContext := maxContext;
      this.dialogCreatedAt := dialogCreatedAt;
      this.messageCreatedAt := messageCreatedAt;
      this.dialogs, this.messages := dialogs, messages;
      this.nextDialogId, this.nextMessageId := nextDialogId, nextMessageId;
    }

    /** The `{role, content}` turns of user `u`'s dialog in id order; none
        when `u` has no dialog. */
    function History(u: int): (h: seq<Turn>)
      reads this
    {
      HistoryIn(dialogs, messages, u)
    }

    /** The row `Dialog(user_id=u)` would become if inserted now. */
    function NewDialog(u: int): (d: Dialog)
      reads this
    {
      Dialog(nextDialogId, u, dialogCreatedAt)
    }

    /** `select(Dialog).where(Dialog.user_id == u)` and `scalar_one_or_none`. */
    method FindDialog(u: int) returns (found: Option<Dialog>)
      requires Valid()
      ensures found == Lookup(dialogs, u)
      ensures found.Some? ==> found.value in dialogs && found.value.userId == u
      ensures found.None? ==> forall d :: d in dialogs ==> d.userId != u
    {
      var i := 0;
      while i < |dialogs|
        invariant 0 <= i <= |dialogs|
        invariant forall j :: 0 <= j < i ==> dialogs[j].userId != u
      {
        if dialogs[i].userId == u {
          LookupUnique(dialogs, i);
          return Some(dialogs[i]);
        }
        i := i + 1;
      }
      found := None;
    }

    /** The user's dialog; a new one is inserted only when none exists. No
        message and no other user's history changes. */
    method GetOrCreateDialog(u: int) returns (d: Dialog)
      requires Valid()
      modifies this
      ensures Valid()
      ensures dialogs == WithDialog(old(dialogs), old(NewDialog(u)))
      ensures Lookup(dialogs, u) == Some(d)
      ensures old(Lookup(dialogs, u)).Some? ==> d == old(Lookup(dialogs, u)).value && nextDialogId == old(nextDialogId)
      ensures old(Lookup(dialogs, u)).None? ==> d == old(NewDialog(u)) && nextDialogId == old(nextDialogId) + 1
      ensures messages == old(messages) && nextMessageId == old(nextMessageId)
      ensures forall v :: History(v) == old(History(v))
      ensures WithinCap() == old(WithinCap())
    {
      var found := FindDialog(u);
      if found.Some? {
        d := found.value;
      } else {
        d := NewDialog(u);
        InvariantNewDialog(dialogs, messages, nextDialogId, nextMessageId, messageCreatedAt, d);
        forall v ensures Lookup(dialogs + [d], v) == if v == u then Some(d) else Lookup(dialogs, v) {
          WithDialogLookup(dialogs, d, v);
        }
        dialogs := dialogs + [d];
        nextDialogId := nextDialogId + 1;
      }
    }

    /** `SELECT ... WHERE dialog_id = did ORDER BY id DESC LIMIT limit`: the
        dialog's newest `limit` messages, newest first. */
    method SelectRecent(did: nat, limit: nat) returns (rows: seq<Message>)
      requires IncreasingIds(messages)
      ensures rows == Reversed(LastN(MessagesOf(messages, did), limit))
      ensures |rows| == if |MessagesOf(messages, did)| <= limit then |MessagesOf(messages, did)| else limit
      ensures forall i, j :: 0 <= i < j < |rows| ==> rows[i].id > rows[j].id
    {
      rows := NewestRowsOf(messages, did, limit);
      RecentDescending(messages, did, limit);
    }

    /** `SELECT count() ... WHERE dialog_id = did`. */
    method CountMessages(did: nat) returns (n: nat)
      ensures n == |MessagesOf(messages, did)|
    {
      var ms := messages;
      n := 0;
      var i := 0;
      while i < |ms|
        invariant 0 <= i <= |ms|
        invariant n == |MessagesOf(ms[..i], did)|
      {
        ScanStep(ms, i, did);
        if ms[i].dialogId == did {
          n := n + 1;
        }
        i := i + 1;
      }
      assert ms[..i] == ms;
    }

    /** `SELECT id ... WHERE dialog_id = did ORDER BY created_at ASC LIMIT k`:
        up to `k` distinct ids of the dialog, none later by `created_at` than
        a message left out. Among equal timestamps the order is the
        database's own choice, so nothing more is promised. */
    method OldestIds(did: nat, k: nat) returns (ids: seq<nat>)
      requires IncreasingIds(messages) && Chronological(messages)
      ensures |ids| == if |MessagesOf(messages, did)| <= k then |MessagesOf(messages, did)| else k
      ensures forall i, j :: 0 <= i < j < |ids| ==> ids[i] != ids[j]
      ensures Members(ids) <= Ids(MessagesOf(messages, did))
      ensures OldestFirst(MessagesOf(messages, did), Members(ids))
    {
      ids := FirstIdsOf(messages, did, k);
      HeadIdsFirst(MessagesOf(messages, did), k);
      OldestIdsMeaning(messages, did, k, ids);
    }

    /** `DELETE FROM messages WHERE id IN ids`. */
    method DeleteIds(ids: set<nat>)
      requires Valid()
      modifies this
      ensures Valid()
      ensures messages == Without(old(messages), ids)
      ensures dialogs == old(dialogs) && nextDialogId == old(nextDialogId) && nextMessageId == old(nextMessageId)
    {
      InvariantTrim(dialogs, messages, nextDialogId, nextMessageId, messageCreatedAt, ids);
      messages := Without(messages, ids);
    }

    /** `INSERT INTO messages`: the row gets the next id and the default
        `created_at`. */
    method InsertMessage(d: Dialog, role: string, content: string) returns (added: Message)
      requires Valid() && d in dialogs && |role| <= MaxRoleLength
      modifies this
      ensures Valid()
      ensures added == Message(old(nextMessageId), d.id, role, content, messageCreatedAt)
      ensures messages == old(messages) + [added] && nextMessageId == old(nextMessageId) + 1
      ensures dialogs == old(dialogs) && nextDialogId == old(nextDialogId)
    {
      added := Message(nextMessageId, d.id, role, content, messageCreatedAt);
      InvariantSave(dialogs, messages, nextDialogId, nextMessageId, messageCreatedAt, d, added);
      messages := messages + [added];
      nextMessageId := nextMessageId + 1;
    }

    /** `DELETE FROM messages WHERE dialog_id = did`. */
    method DeleteDialogMessages(did: nat)
      requires Valid()
      modifies this
      ensures Valid()
      ensures messages == DropDialogMessages(old(messages), did)
      ensures dialogs == old(dialogs) && nextDialogId == old(nextDialogId) && nextMessageId == old(nextMessageId)
    {
      InvariantClear(dialogs, messages, nextDialogId, nextMessageId, messageCreatedAt, did);
      messages := DropDialogMessages(messages, did);
    }

    /** _cleanup_old_messages: when the dialog holds more than `maxContext`
        messages, delete the surplus, oldest by `created_at` first. Only that
        dialog loses messages. */
    method CleanupOldMessages(did: nat) returns (ghost gone: set<nat>)
      requires Valid()
      modifies this
      ensures Valid()
      ensures dialogs == old(dialogs) && nextDialogId == old(nextDialogId) && nextMessageId == old(nextMessageId)
      ensures messages == Without(old(messages), gone)
      ensures IsTrim(old(MessagesOf(messages, did)), gone, maxContext)
      ensures |MessagesOf(messages, did)| ==
                if old(|MessagesOf(messages, did)|) <= maxContext then old(|MessagesOf(messages, did)|) else maxContext
      ensures forall e :: e != did ==> MessagesOf(messages, e) == old(MessagesOf(messages, e))
      ensures old(WithinCap()) ==> WithinCap()
    {
      ghost var before := messages;
      var count := CountMessages(did);
      gone := {};
      if count > maxContext {
        var ids := OldestIds(did, count - maxContext);
        if |ids| > 0 {
          gone := Members(ids);
          TrimOutcome(messages, did, maxContext, ids);
          DeleteIds(Members(ids));
        }
      } else {
        NoTrimOutcome(messages, did, maxContext);
      }
      CapRestored(before, messages, did, maxContext);
    }

    /** save_message: resolve the dialog, insert the message with the next id,
        then trim the dialog to `maxContext` messages (the count includes the
        new message). Other users' histories are unchanged. */
    method SaveMessage(u: int, role: string, content: string) returns (ghost gone: set<nat>)
      requires Valid() && |role| <= MaxRoleLength
      modifies this
      ensures Valid()
      ensures dialogs == WithDialog(old(dialogs), old(NewDialog(u))) && Lookup(dialogs, u).Some?
      ensures nextDialogId == old(nextDialogId) + (if old(Lookup(dialogs, u)).None? then 1 else 0)
      ensures nextMessageId == old(nextMessageId) + 1
      ensures forall m :: m in old(messages) ==> m.id < old(nextMessageId)
      ensures var d := Lookup(dialogs, u).value;
              var added := Message(old(nextMessageId), d.id, role, content, messageCreatedAt);
              && messages == Without(old(messages) + [added], gone)
              && IsTrim(old(MessagesOf(messages, d.id)) + [added], gone, maxContext)
      ensures var n := |old(History(u))| + 1;
              |History(u)| == if n <= maxContext then n else maxContext
      ensures |old(History(u))| < maxContext ==> History(u) == old(History(u)) + [Turn(role, content)]
      ensures forall v :: v != u ==> History(v) == old(History(v))
      ensures old(WithinCap()) ==> WithinCap()
    {
      InvariantIdsBelow(dialogs, messages, nextDialogId, nextMessageId, messageCreatedAt);
      var d := GetOrCreateDialog(u);
      gone := AppendMessage(u, d, role, content);
    }

    /** The second half of save_message, once user `u`'s dialog `d` exists:
        insert the message, then trim the dialog to `maxContext` messages. */
    method AppendMessage(u: int, d: Dialog, role: string, content: string) returns (ghost gone: set<nat>)
      requires Valid() && |role| <= MaxRoleLength && Lookup(dialogs, u) == Some(d)
      modifies this
      ensures Valid()
      ensures dialogs == old(dialogs) && nextDialogId == old(nextDialogId)
      ensures nextMessageId == old(nextMessageId) + 1
      ensures var added := Message(old(nextMessageId), d.id, role, content, messageCreatedAt);
              && messages == Without(old(messages) + [added], gone)
              && IsTrim(old(MessagesOf(messages, d.id)) + [added], gone, maxContext)
      ensures var n := |old(History(u))| + 1;
              |History(u)| == if n <= maxContext then n else maxContext
      ensures |old(History(u))| < maxContext ==> History(u) == old(History(u)) + [Turn(role, content)]
      ensures forall v :: v != u ==> History(v) == old(History(v))
      ensures old(WithinCap()) ==> WithinCap()
    {
      ghost var before := messages;
      var added := InsertMessage(d, role, content);
      gone := CleanupOldMessages(d.id);
      SaveOutcome(dialogs, before, added, messages, gone, maxContext, u);
      CapRestored(before, messages, d.id, maxContext);
    }

    /** get_history: the newest `limit` turns of the user's dialog (by default
        `maxContext`), oldest first, as `{role, content}`. A first-time user
        gets a dialog and an empty history. */
    method GetHistory(u: int, limit: Option<nat>) returns (h: seq<Turn>)
      requires Valid()
      modifies this
      ensures Valid()
      ensures dialogs == WithDialog(old(dialogs), old(NewDialog(u))) && Lookup(dialogs, u).Some?
      ensures nextDialogId == old(nextDialogId) + (if old(Lookup(dialogs, u)).None? then 1 else 0)
      ensures messages == old(messages) && nextMessageId == old(nextMessageId)
      ensures forall v :: History(v) == old(History(v))
      ensures WithinCap() == old(WithinCap())
      ensures h == LastN(old(History(u)), limit.GetOr(maxContext))
    {
      var n := if limit.None? then maxContext else limit.value;
      var d := GetOrCreateDialog(u);
      var rows := SelectRecent(d.id, n);
      var oldestFirst := ReversedCopy(rows);
      ReversedTwice(LastN(MessagesOf(messages, d.id), n));
      h := Entries(oldestFirst);
      EntriesLastN(MessagesOf(messages, d.id), n);
    }

    /** clear_history: delete every message of the user's dialog and keep the
        dialog. Clearing an empty history deletes nothing. */
    method ClearHistory(u: int)
      requires Valid()
      modifies this
      ensures Valid()
      ensures dialogs == WithDialog(old(dialogs), old(NewDialog(u))) && Lookup(dialogs, u).Some?
      ensures messages == DropDialogMessages(old(messages), Lookup(dialogs, u).value.id)
      ensures nextDialogId == old(nextDialogId) + (if old(Lookup(dialogs, u)).None? then 1 else 0)
      ensures nextMessageId == old(nextMessageId)
      ensures History(u) == []
      ensures forall v :: v != u ==> History(v) == old(History(v))
      ensures old(History(u)) == [] ==> messages == old(messages)
      ensures old(WithinCap()) ==> WithinCap()
    {
      var d := GetOrCreateDialog(u);
      ClearOutcome(dialogs, messages, u, d.id, maxContext);
      DeleteDialogMessages(d.id);
    }
  }

  /** test_save_and_get_history: one saved message reads back as the only
      entry, with its role and content. */
  method SaveThenReadBack(cap: nat, u: int, role: string, content: string) returns (h: seq<Turn>)
    requires cap >= 1 && |role| <= MaxRoleLength
    ensures h == [Turn(role, content)]
  {
    var store := new HistoryStore(cap, 0, 0);
    ghost var gone := store.SaveMessage(u, role, content);
    assert store.History(u) == [Turn(role, content)];
    LastNShort(store.History(u), cap);
    h := store.GetHistory(u, None);
  }

  /** Two turns saved into an empty history, in save order. */
  method SaveTwice(store: HistoryStore, u: int, c1: string, c2: string)
    requires store.Valid() && store.History(u) == [] && store.maxContext >= 2
    modifies store
    ensures store.Valid()
    ensures store.History(u) == [Turn("user", c1), Turn("assistant", c2)]
  {
    ghost var gone := store.SaveMessage(u, "user", c1);
    assert store.History(u) == [Turn("user", c1)];
    gone := store.SaveMessage(u, "assistant", c2);
    PairDisplay(Turn("user", c1), Turn("assistant", c2));
  }

  /** test_clear_history: two saved messages read back in save order; after
      clear_history the history is empty. */
  method SaveTwiceThenClear(cap: nat, u: int, c1: string, c2: string) returns (before: seq<Turn>, after: seq<Turn>)
    requires cap >= 2
    ensures before == [Turn("user", c1), Turn("assistant", c2)]
    ensures after == []
  {
    var store := new HistoryStore(cap, 0, 0);
    SaveTwice(store, u, c1, c2);
    LastNShort(store.History(u), cap);
    before := store.GetHistory(u, None);
    store.ClearHistory(u);
    after := store.GetHistory(u, None);
  }
}
