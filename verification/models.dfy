/** The relational schema of the history store: the `dialogs` and `messages`
    tables, their column constraints and the relationship between them. */
module Models {
  import opened Types

  /** Declared width of the `role` column. */
  const MaxRoleLength: nat := 20

  /** A row of `dialogs`: the per-user container of a conversation. */
  datatype Dialog = Dialog(id: nat, userId: int, createdAt: int)

  /** A row of `messages`: one role-tagged turn belonging to a dialog. */
  datatype Message = Message(id: nat, dialogId: nat, role: string, content: string, createdAt: int)

  /** `user_id` is a unique column: at most one dialog per user. */
  predicate UniqueUsers(ds: seq<Dialog>) {
    forall i, j :: 0 <= i < j < |ds| ==> ds[i].userId != ds[j].userId
  }

  /** `dialogs.id` is the primary key. */
  predicate UniqueDialogIds(ds: seq<Dialog>) {
    forall i, j :: 0 <= i < j < |ds| ==> ds[i].id != ds[j].id
  }

  /** Some dialog row has primary key `did`. */
  predicate HasDialog(ds: seq<Dialog>, did: nat) {
    ds != [] && (ds[0].id == did || HasDialog(ds[1..], did))
  }

  /** HasDialog is membership of a row with that key. */
  lemma {:induction false} HasDialogIff(ds: seq<Dialog>, did: nat)
    ensures HasDialog(ds, did) <==> exists d :: d in ds && d.id == did
  {
    if ds != [] {
      HasDialogIff(ds[1..], did);
      if ds[0].id != did && !HasDialog(ds[1..], did) {
        forall d | d in ds ensures d.id != did {
          if d != ds[0] {
            assert d in ds[1..];
          }
        }
      }
    }
  }

  /** `messages.dialog_id` is a non-null foreign key into `dialogs`. */
  predicate ForeignKeys(ds: seq<Dialog>, ms: seq<Message>) {
    forall i :: 0 <= i < |ms| ==> HasDialog(ds, ms[i].dialogId)
  }

  /** `role` fits its declared width. */
  predicate RolesFit(ms: seq<Message>) {
    forall i :: 0 <= i < |ms| ==> |ms[i].role| <= MaxRoleLength
  }

  /** Autoincrement primary key: rows stored in insertion order carry
      strictly increasing ids (so ids are also unique). */
  predicate IncreasingIds(ms: seq<Message>) {
    forall i, j :: 0 <= i < j < |ms| ==> ms[i].id < ms[j].id
  }

  /** Every constraint the two table declarations impose on their rows. */
  predicate SchemaValid(ds: seq<Dialog>, ms: seq<Message>) {
    UniqueUsers(ds) && UniqueDialogIds(ds) && ForeignKeys(ds, ms) && RolesFit(ms) && IncreasingIds(ms)
  }

  /** The dialog row of user `u`, found by scanning the table. */
  function Lookup(ds: seq<Dialog>, u: int): (r: Option<Dialog>)
    ensures r.Some? ==> r.value in ds && r.value.userId == u
    ensures r.None? ==> forall d :: d in ds ==> d.userId != u
  {
    if ds == [] then None
    else if ds[0].userId == u then Some(ds[0])
    else Lookup(ds[1..], u)
  }

  /** With user ids unique, the lookup finds the one row of that user. */
  lemma LookupUnique(ds: seq<Dialog>, i: nat)
    requires UniqueUsers(ds) && i < |ds|
    ensures Lookup(ds, ds[i].userId) == Some(ds[i])
  {
    var r := Lookup(ds, ds[i].userId);
    var j :| 0 <= j < |ds| && ds[j] == r.value;
  }

  /** Adding a row for another user leaves each lookup as it was; adding the
      first row for `u` makes the lookup of `u` find it. */
  lemma {:induction false} LookupAppend(ds: seq<Dialog>, d: Dialog, u: int)
    ensures Lookup(ds + [d], u) ==
              if Lookup(ds, u).Some? then Lookup(ds, u)
              else if d.userId == u then Some(d) else None
  {
    if ds != [] {
      assert (ds + [d])[1..] == ds[1..] + [d];
      LookupAppend(ds[1..], d, u);
    }
  }

  /** The rows of `dialogs` whose id is not `did`. */
  function DropDialogRow(ds: seq<Dialog>, did: nat): (r: seq<Dialog>)
    ensures forall d :: d in r <==> d in ds && d.id != did
  {
    if ds == [] then []
    else (if ds[0].id == did then [] else [ds[0]]) + DropDialogRow(ds[1..], did)
  }

  /** The rows of `messages` whose dialog is not `did`. */
  function DropDialogMessages(ms: seq<Message>, did: nat): (r: seq<Message>)
    ensures forall m :: m in r <==> m in ms && m.dialogId != did
  {
    if ms == [] then []
    else DropDialogMessages(ms[..|ms| - 1], did) + (if ms[|ms| - 1].dialogId == did then [] else [ms[|ms| - 1]])
  }

  /** Removing some rows keeps the survivors in their relative order, so the
      ids stay increasing. */
  lemma {:induction false} DropDialogMessagesIncreasing(ms: seq<Message>, did: nat)
    requires IncreasingIds(ms)
    ensures IncreasingIds(DropDialogMessages(ms, did))
  {
    if ms != [] {
      var p := ms[..|ms| - 1];
      assert IncreasingIds(p);
      DropDialogMessagesIncreasing(p, did);
      var r := DropDialogMessages(ms, did);
      forall i, j | 0 <= i < j < |r| ensures r[i].id < r[j].id {
        if j == |r| - 1 && ms[|ms| - 1].dialogId != did {
          assert r[i] in p;
          var k :| 0 <= k < |p| && p[k] == r[i];
        }
      }
    }
  }

  /** Deleting a dialog with `ondelete="CASCADE"` / `delete-orphan`: the row
      goes and every message that pointed to it goes with it. */
  function CascadeDelete(ds: seq<Dialog>, ms: seq<Message>, did: nat): (r: (seq<Dialog>, seq<Message>))
    requires SchemaValid(ds, ms)
    ensures SchemaValid(r.0, r.1)
    ensures !HasDialog(r.0, did) && forall m :: m in r.1 ==> m.dialogId != did
    ensures forall m :: m in ms && m.dialogId != did ==> m in r.1
    ensures forall d :: d in ds && d.id != did ==> d in r.0
  {
    var ds', ms' := DropDialogRow(ds, did), DropDialogMessages(ms, did);
    DropDialogRowUnique(ds, did);
    DropDialogMessagesIncreasing(ms, did);
    assert ForeignKeys(ds', ms') by {
      forall i | 0 <= i < |ms'| ensures HasDialog(ds', ms'[i].dialogId) {
        var m := ms'[i];
        assert m in ms;
        var k :| 0 <= k < |ms| && ms[k] == m;
        HasDialogIff(ds, m.dialogId);
        var d :| d in ds && d.id == m.dialogId;
        assert d in ds';
        HasDialogIff(ds', m.dialogId);
      }
    }
    HasDialogIff(ds', did);
    (ds', ms')
  }

  /** Dropping a dialog row keeps user ids and dialog ids unique. */
  lemma {:induction false} DropDialogRowUnique(ds: seq<Dialog>, did: nat)
    requires UniqueUsers(ds) && UniqueDialogIds(ds)
    ensures UniqueUsers(DropDialogRow(ds, did)) && UniqueDialogIds(DropDialogRow(ds, did))
  {
    if ds != [] {
      var t := ds[1..];
      assert UniqueUsers(t) && UniqueDialogIds(t);
      DropDialogRowUnique(t, did);
      var rt := DropDialogRow(t, did);
      if ds[0].id != did {
        HeadDiffers(ds);
        ConsUnique(ds[0], rt);
      }
    }
  }

  /** No later row shares the first row's user or key. */
  lemma HeadDiffers(ds: seq<Dialog>)
    requires UniqueUsers(ds) && UniqueDialogIds(ds) && ds != []
    ensures forall e :: e in ds[1..] ==> e.userId != ds[0].userId && e.id != ds[0].id
  {
    forall e | e in ds[1..] ensures e.userId != ds[0].userId && e.id != ds[0].id {
      var k :| 0 <= k < |ds| - 1 && ds[1..][k] == e;
      assert ds[k + 1] == e;
    }
  }

  /** A row in front of unique rows that differ from it in user and key. */
  lemma ConsUnique(d: Dialog, rt: seq<Dialog>)
    requires UniqueUsers(rt) && UniqueDialogIds(rt)
    requires forall e :: e in rt ==> e.userId != d.userId && e.id != d.id
    ensures UniqueUsers([d] + rt) && UniqueDialogIds([d] + rt)
  {
    var r := [d] + rt;
    forall i, j | 0 <= i < j < |r| ensures r[i].userId != r[j].userId && r[i].id != r[j].id {
      assert r[j] == rt[j - 1];
      if i == 0 {
        assert rt[j - 1] in rt;
      } else {
        assert r[i] == rt[i - 1];
      }
    }
  }

  /** A new dialog row breaks no message's reference. */
  lemma ForeignKeysGrow(ds: seq<Dialog>, d: Dialog, ms: seq<Message>)
    requires ForeignKeys(ds, ms)
    ensures ForeignKeys(ds + [d], ms)
  {
    forall i | 0 <= i < |ms| ensures HasDialog(ds + [d], ms[i].dialogId) {
      HasDialogIff(ds, ms[i].dialogId);
      var e :| e in ds && e.id == ms[i].dialogId;
      assert e in ds + [d];
      HasDialogIff(ds + [d], ms[i].dialogId);
    }
  }

  /** Every message refers to an existing dialog, so to an id below any bound
      on the dialog ids. */
  lemma ForeignKeysBelow(ds: seq<Dialog>, ms: seq<Message>, bound: nat)
    requires ForeignKeys(ds, ms)
    requires forall i :: 0 <= i < |ds| ==> ds[i].id < bound
    ensures forall m :: m in ms ==> m.dialogId < bound
  {
    forall m | m in ms ensures m.dialogId < bound {
      var i :| 0 <= i < |ms| && ms[i] == m;
      HasDialogIff(ds, m.dialogId);
      var e :| e in ds && e.id == m.dialogId;
      var j :| 0 <= j < |ds| && ds[j] == e;
    }
  }

  /** Keeping only rows of `ms` keeps the references valid. */
  lemma ForeignKeysSub(ds: seq<Dialog>, ms: seq<Message>, kept: seq<Message>)
    requires ForeignKeys(ds, ms)
    requires forall m :: m in kept ==> m in ms
    ensures ForeignKeys(ds, kept)
  {
    forall i | 0 <= i < |kept| ensures HasDialog(ds, kept[i].dialogId) {
      assert kept[i] in ms;
      var k :| 0 <= k < |ms| && ms[k] == kept[i];
    }
  }

  /** Rows of two different users are two different rows, so their keys
      differ. */
  lemma OtherUserOtherDialog(ds: seq<Dialog>, a: Dialog, b: Dialog)
    requires UniqueDialogIds(ds) && a in ds && b in ds && a.userId != b.userId
    ensures a.id != b.id
  {
    var i :| 0 <= i < |ds| && ds[i] == a;
    var j :| 0 <= j < |ds| && ds[j] == b;
  }
}
