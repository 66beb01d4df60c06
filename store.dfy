/**
 * The `votes_vote` table, which the Vote model (votes/models.py) and the Rating model
 * (ratings/models.py, `db_table = 'votes_vote'`, column `choice`) share. A row holds the raw
 * text of the `choice` column; `unique_together = ['user', 'item']` allows one row per key.
 * `update_or_create` is modelled on the sequence of rows in table order.
 */
module Store {
  import opened Wrappers

  type UserId = nat
  type ItemId = nat

  datatype Row = Row(user: UserId, item: ItemId, choice: string)

  predicate HasKey(r: Row, user: UserId, item: ItemId)
  {
    r.user == user && r.item == item
  }

  /** The unique-together constraint on (user, item). */
  predicate UniqueKeys(rows: seq<Row>)
  {
    forall i, j :: 0 <= i < j < |rows| ==> rows[i].user != rows[j].user || rows[i].item != rows[j].item
  }

  /** The position of the row for (user, item), if there is one. */
  function Find(rows: seq<Row>, user: UserId, item: ItemId): (r: Option<nat>)
    ensures r.Some? ==> r.value < |rows| && HasKey(rows[r.value], user, item)
    ensures r.Some? ==> forall k :: 0 <= k < r.value ==> !HasKey(rows[k], user, item)
    ensures r.None? ==> forall k :: 0 <= k < |rows| ==> !HasKey(rows[k], user, item)
  {
    if rows == [] then None
    else if HasKey(rows[0], user, item) then Some(0)
    else match Find(rows[1..], user, item)
      case None => None
      case Some(k) => Some(k + 1)
  }

  /** The leftmost row with the key is the one `Find` names. */
  lemma {:induction false} FindLeftmost(rows: seq<Row>, user: UserId, item: ItemId, i: nat)
    requires i < |rows| && HasKey(rows[i], user, item)
    requires forall k :: 0 <= k < i ==> !HasKey(rows[k], user, item)
    ensures Find(rows, user, item) == Some(i)
  {
    if i > 0 { FindLeftmost(rows[1..], user, item, i - 1); }
  }

  /** The stored choice of `user` for `item`, if the user has a row for it. */
  function Lookup(rows: seq<Row>, user: UserId, item: ItemId): Option<string>
  {
    match Find(rows, user, item)
    case None => None
    case Some(k) => Some(rows[k].choice)
  }

  /** The number of rows for (user, item). */
  function KeyCount(rows: seq<Row>, user: UserId, item: ItemId): nat
  {
    if rows == [] then 0
    else (if HasKey(rows[0], user, item) then 1 else 0) + KeyCount(rows[1..], user, item)
  }

  /** The number of rows for an item, by any user and with any choice: `Count('votes')`. */
  function CountForItem(rows: seq<Row>, item: ItemId): (n: nat)
    ensures n <= |rows|
  {
    if rows == [] then 0
    else (if rows[0].item == item then 1 else 0) + CountForItem(rows[1..], item)
  }

  /** `update_or_create(user=…, item=…, defaults={'choice': choice})`. */
  function Upserted(rows: seq<Row>, user: UserId, item: ItemId, choice: string): (r: seq<Row>)
    ensures Lookup(r, user, item) == Some(choice)
    ensures forall u, i :: !(u == user && i == item) ==> Lookup(r, u, i) == Lookup(rows, u, i)
    ensures |r| == |rows| + (if Find(rows, user, item).None? then 1 else 0)
    ensures UniqueKeys(rows) ==> UniqueKeys(r)
  {
    match Find(rows, user, item)
    case Some(k) =>
      var r := rows[k := Row(user, item, choice)];
      assert forall u, i :: Find(r, u, i) == Find(rows, u, i) by {
        forall u, i ensures Find(r, u, i) == Find(rows, u, i) {
          FindAfterUpdate(rows, k, choice, u, i);
        }
      }
      r
    case None =>
      var r := rows + [Row(user, item, choice)];
      assert forall u, i :: !(u == user && i == item) ==> Find(r, u, i) == Find(rows, u, i) by {
        forall u, i | !(u == user && i == item) ensures Find(r, u, i) == Find(rows, u, i) {
          FindAfterAppend(rows, Row(user, item, choice), u, i);
        }
      }
      FindAfterAppend(rows, Row(user, item, choice), user, item);
      r
  }

  lemma {:induction false} FindAfterUpdate(rows: seq<Row>, k: nat, choice: string, u: UserId, i: ItemId)
    requires k < |rows|
    ensures Find(rows[k := Row(rows[k].user, rows[k].item, choice)], u, i) == Find(rows, u, i)
  {
    if k > 0 {
      var r := rows[k := Row(rows[k].user, rows[k].item, choice)];
      assert r[1..] == rows[1..][k - 1 := Row(rows[k].user, rows[k].item, choice)];
      FindAfterUpdate(rows[1..], k - 1, choice, u, i);
    }
  }

  lemma {:induction false} FindAfterAppend(rows: seq<Row>, x: Row, u: UserId, i: ItemId)
    ensures Find(rows, u, i).Some? ==> Find(rows + [x], u, i) == Find(rows, u, i)
    ensures Find(rows, u, i).None? ==> Find(rows + [x], u, i) == (if HasKey(x, u, i) then Some(|rows|) else None)
  {
    if rows != [] {
      assert (rows + [x])[1..] == rows[1..] + [x];
      FindAfterAppend(rows[1..], x, u, i);
    }
  }

  /** Under the constraint a key has at most one row. */
  lemma {:induction false} UniqueKeysAtMostOne(rows: seq<Row>, user: UserId, item: ItemId)
    requires UniqueKeys(rows)
    ensures KeyCount(rows, user, item) <= 1
    ensures KeyCount(rows, user, item) == 1 <==> Find(rows, user, item).Some?
  {
    if rows != [] {
      UniqueKeysAtMostOne(rows[1..], user, item);
      if HasKey(rows[0], user, item) {
        NoKeyCountZero(rows[1..], user, item);
      }
    }
  }

  lemma {:induction false} NoKeyCountZero(rows: seq<Row>, user: UserId, item: ItemId)
    requires forall k :: 0 <= k < |rows| ==> !HasKey(rows[k], user, item)
    ensures KeyCount(rows, user, item) == 0
  {
    if rows != [] { NoKeyCountZero(rows[1..], user, item); }
  }

  /** After a submission the table holds exactly one row for the key, carrying the submitted choice. */
  lemma ExactlyOneAfterUpsert(rows: seq<Row>, user: UserId, item: ItemId, choice: string)
    requires UniqueKeys(rows)
    ensures KeyCount(Upserted(rows, user, item, choice), user, item) == 1
    ensures Lookup(Upserted(rows, user, item, choice), user, item) == Some(choice)
  {
    UniqueKeysAtMostOne(Upserted(rows, user, item, choice), user, item);
  }

  /** Submitting the same choice twice leaves the table as submitting it once. */
  lemma UpsertIdempotent(rows: seq<Row>, user: UserId, item: ItemId, choice: string)
    ensures Upserted(Upserted(rows, user, item, choice), user, item, choice) == Upserted(rows, user, item, choice)
  {
    var once := Upserted(rows, user, item, choice);
    match Find(rows, user, item)
    case Some(k) =>
      FindAfterUpdate(rows, k, choice, user, item);
      assert once[k := Row(user, item, choice)] == once;
    case None =>
      FindAfterAppend(rows, Row(user, item, choice), user, item);
      assert once[|rows| := Row(user, item, choice)] == once;
  }

  class Table {
    var rows: seq<Row>

    ghost predicate Valid()
      reads this
    {
      UniqueKeys(rows)
    }

    constructor ()
      ensures Valid() && rows == []
    {
      rows := [];
    }

    /** `update_or_create`: the row for the key takes the choice, or a new row is added. */
    method UpdateOrCreate(user: UserId, item: ItemId, choice: string) returns (created: bool)
      requires Valid()
      modifies this
      ensures Valid()
      ensures rows == Upserted(old(rows), user, item, choice)
      ensures created <==> Lookup(old(rows), user, item).None?
    {
      created := Find(rows, user, item).None?;
      rows := Upserted(rows, user, item, choice);
    }
  }
}
