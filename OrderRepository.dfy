/**
 * The order repository: the orders table as a sequence of rows plus the next
 * auto-increment id. Reads see only active rows (the soft-delete scope);
 * `Delete` marks a row deleted instead of removing it.
 */
module Repository {
  import opened Wrappers
  import opened Booking

  class OrderRepository {
    var rows: seq<Order>
    var nextId: nat

    /** Ids are distinct and below the next id the table will assign. */
    ghost predicate Valid()
      reads this
    {
      && UniqueIds(rows)
      && (forall i :: 0 <= i < |rows| ==> rows[i].id < nextId)
    }

    /** An empty table whose first id is 1. */
    constructor()
      ensures Valid() && rows == [] && nextId == 1
    {
      rows := [];
      nextId := 1;
    }

    /** Every order that is not soft-deleted. */
    method All() returns (active: seq<Order>)
      ensures forall o :: o in active <==> o in rows && !o.deleted
    {
      active := ActiveRows(rows);
    }

    /** The active order with this id; None where the source answers 404. */
    method Find(id: nat) returns (found: Option<Order>)
      requires Valid()
      ensures found.None? <==> forall i :: 0 <= i < |rows| && rows[i].id == id ==> rows[i].deleted
      ensures found.Some? ==> found.value in rows && found.value.id == id && !found.value.deleted
    {
      var k := IndexOf(rows, id);
      if k.Some? && !rows[k.value].deleted {
        found := Some(rows[k.value]);
      } else {
        found := None;
      }
    }

    /** Inserts one new active row carrying `d` under a fresh id. */
    method Create(d: OrderData) returns (o: Order)
      requires Valid()
      modifies this
      ensures Valid()
      ensures rows == old(rows) + [o]
      ensures o == FromData(o.id, d)
      ensures forall i :: 0 <= i < |old(rows)| ==> old(rows)[i].id != o.id
    {
      o := FromData(nextId, d);
      rows := rows + [o];
      nextId := nextId + 1;
    }

    /** Overwrites the fillable attributes of `order`'s row; no other row changes. */
    method Update(order: Order, d: OrderData) returns (updated: Order)
      requires Valid()
      requires order in rows
      modifies this
      ensures Valid() && nextId == old(nextId)
      ensures |rows| == |old(rows)|
      ensures forall i :: 0 <= i < |rows| ==>
                rows[i] == if old(rows)[i].id == order.id then WithData(old(rows)[i], d) else old(rows)[i]
      ensures updated in rows && updated.id == order.id && updated == WithData(order, d)
    {
      var k := IndexOf(rows, order.id);
      ghost var i :| 0 <= i < |rows| && rows[i] == order;
      assert k.value == i;
      updated := WithData(rows[k.value], d);
      rows := rows[k.value := updated];
    }

    /** Soft-deletes `order`'s row: the row stays, marked deleted; no other row changes. */
    method Delete(order: Order) returns (done: bool)
      requires Valid()
      requires order in rows
      modifies this
      ensures Valid() && nextId == old(nextId)
      ensures done
      ensures |rows| == |old(rows)|
      ensures forall i :: 0 <= i < |rows| ==>
                rows[i] == if old(rows)[i].id == order.id then old(rows)[i].(deleted := true) else old(rows)[i]
    {
      var k := IndexOf(rows, order.id);
      ghost var i :| 0 <= i < |rows| && rows[i] == order;
      assert k.value == i;
      rows := rows[k.value := rows[k.value].(deleted := true)];
      done := true;
    }
  }
}
