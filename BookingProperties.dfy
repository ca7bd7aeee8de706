/**
 * What the conflict query guarantees about the orders table: the boundary
 * cases of the overlap test, that only the requested car's active rows
 * matter, that soft-deleted rows never block, that an update does not
 * conflict with itself, and that inserts, updates and soft deletes that pass
 * the check keep the table free of double bookings.
 */
module BookingProperties {
  import opened Wrappers
  import opened Booking

  /** The rows of one car, in table order. */
  function RowsOfCar(rows: seq<Order>, carId: nat): seq<Order> {
    if rows == [] then []
    else if rows[0].carId == carId then [rows[0]] + RowsOfCar(rows[1..], carId)
    else RowsOfCar(rows[1..], carId)
  }

  /** An order that ends on the wanted pickup day conflicts with it. */
  lemma TouchingBoundaryConflicts(existing: Order)
    requires !existing.deleted && existing.carId == 7
    requires existing.pickup == 1 && existing.dropoff == 10
    ensures ConflictExists([existing], 7, 10, 15, None)
  {
    assert Blocks([existing][0], 7, 10, 15, None);
  }

  /** An order that ends the day before the wanted pickup day does not. */
  lemma DayBeforeIsFree(existing: Order)
    requires existing.pickup == 1 && existing.dropoff == 10
    ensures !ConflictExists([existing], existing.carId, 11, 15, None)
  {
  }

  /**
   * For any days: an active order of a car that ends on the requested pickup
   * day, or starts on the requested dropoff day, makes the query find a
   * conflict for that car.
   */
  lemma SharedBoundaryDayConflicts(rows: seq<Order>, k: nat, pickup: int, dropoff: int)
    requires k < |rows| && !rows[k].deleted
    requires rows[k].pickup <= rows[k].dropoff && pickup <= dropoff
    requires rows[k].dropoff == pickup || rows[k].pickup == dropoff
    ensures ConflictExists(rows, rows[k].carId, pickup, dropoff, None)
  {
    assert Blocks(rows[k], rows[k].carId, pickup, dropoff, None);
  }

  /**
   * For any days: an order that ends the day before the requested pickup, or
   * starts the day after the requested dropoff, never blocks the request.
   */
  lemma AdjacentDayDoesNotBlock(o: Order, carId: nat, pickup: int, dropoff: int, exclude: Option<nat>)
    requires o.pickup <= o.dropoff && pickup <= dropoff
    requires o.dropoff == pickup - 1 || o.pickup == dropoff + 1
    ensures !Blocks(o, carId, pickup, dropoff, exclude)
  {
  }

  /** An empty or whitespace-only location fails the `required` rule. */
  lemma BlankLocationsRejected(cars: seq<Car>)
    requires Car(7, "Avanza") in cars
    ensures Validate(OrderData(7, 1, 1, 10, "", " \t"), cars) == {PickupLocation, DropoffLocation}
  {
    assert CarExists(cars, 7);
  }

  /** The conflict query sees only the rows of the requested car. */
  lemma {:induction false} ConflictOnlySeesCar(rows: seq<Order>, carId: nat, pickup: int, dropoff: int, exclude: Option<nat>)
    ensures ConflictExists(rows, carId, pickup, dropoff, exclude)
            == ConflictExists(RowsOfCar(rows, carId), carId, pickup, dropoff, exclude)
  {
    if rows != [] {
      ConflictOnlySeesCar(rows[1..], carId, pickup, dropoff, exclude);
      var tail := RowsOfCar(rows[1..], carId);
      if rows[0].carId == carId {
        assert ([rows[0]] + tail)[1..] == tail;
      } else {
        assert !Blocks(rows[0], carId, pickup, dropoff, exclude);
      }
    }
  }

  /** Two tables that agree on one car's rows give that car the same answer. */
  lemma OtherCarsNeverBlock(rows: seq<Order>, rows': seq<Order>, carId: nat, pickup: int, dropoff: int, exclude: Option<nat>)
    requires RowsOfCar(rows, carId) == RowsOfCar(rows', carId)
    ensures ConflictExists(rows, carId, pickup, dropoff, exclude) == ConflictExists(rows', carId, pickup, dropoff, exclude)
  {
    ConflictOnlySeesCar(rows, carId, pickup, dropoff, exclude);
    ConflictOnlySeesCar(rows', carId, pickup, dropoff, exclude);
  }

  /** Booking another car leaves this car's availability as it was. */
  lemma {:induction false} OtherCarInsertInvisible(rows: seq<Order>, o: Order, carId: nat)
    requires o.carId != carId
    ensures RowsOfCar(rows + [o], carId) == RowsOfCar(rows, carId)
  {
    if rows == [] {
      assert RowsOfCar([o], carId) == RowsOfCar([o][1..], carId);
    } else {
      assert (rows + [o])[1..] == rows[1..] + [o];
      OtherCarInsertInvisible(rows[1..], o, carId);
    }
  }

  /** Soft-deleting a row never creates a conflict. */
  lemma DeletingNeverAddsConflict(rows: seq<Order>, k: nat, carId: nat, pickup: int, dropoff: int, exclude: Option<nat>)
    requires k < |rows|
    ensures ConflictExists(rows[k := rows[k].(deleted := true)], carId, pickup, dropoff, exclude)
            ==> ConflictExists(rows, carId, pickup, dropoff, exclude)
  {
    var after := rows[k := rows[k].(deleted := true)];
    if ConflictExists(after, carId, pickup, dropoff, exclude) {
      var i :| 0 <= i < |after| && Blocks(after[i], carId, pickup, dropoff, exclude);
      assert Blocks(rows[i], carId, pickup, dropoff, exclude);
    }
  }

  /**
   * An active order blocks its own range while it exists; once it is
   * soft-deleted, a new order for that car and range passes the check.
   */
  lemma DeleteFreesRange(rows: seq<Order>, k: nat)
    requires Consistent(rows)
    requires k < |rows| && !rows[k].deleted
    ensures ConflictExists(rows, rows[k].carId, rows[k].pickup, rows[k].dropoff, None)
    ensures !ConflictExists(rows[k := rows[k].(deleted := true)], rows[k].carId, rows[k].pickup, rows[k].dropoff, None)
  {
    var o := rows[k];
    assert WellFormed(o);
    assert Blocks(rows[k], o.carId, o.pickup, o.dropoff, None);
    var after := rows[k := o.(deleted := true)];
    forall i | 0 <= i < |after|
      ensures !Blocks(after[i], o.carId, o.pickup, o.dropoff, None)
    {
      if i != k {
        assert !Clash(rows[i], rows[k]);
      }
    }
  }

  /**
   * Re-saving an active order with its own car and dates passes the update
   * check, though the same range without the exclusion would conflict.
   */
  lemma ResaveUnchangedSucceeds(rows: seq<Order>, k: nat)
    requires Consistent(rows) && UniqueIds(rows)
    requires k < |rows| && !rows[k].deleted
    ensures !ConflictExists(rows, rows[k].carId, rows[k].pickup, rows[k].dropoff, Some(rows[k].id))
    ensures ConflictExists(rows, rows[k].carId, rows[k].pickup, rows[k].dropoff, None)
  {
    var o := rows[k];
    assert WellFormed(o);
    assert Blocks(rows[k], o.carId, o.pickup, o.dropoff, None);
    forall i | 0 <= i < |rows|
      ensures !Blocks(rows[i], o.carId, o.pickup, o.dropoff, Some(o.id))
    {
      if i != k {
        assert !Clash(rows[i], rows[k]);
      }
    }
  }

  /** Inserting a validated row that passed the conflict check keeps the table consistent. */
  lemma StorePreservesConsistency(rows: seq<Order>, o: Order)
    requires Consistent(rows)
    requires WellFormed(o) && !o.deleted
    requires !ConflictExists(rows, o.carId, o.pickup, o.dropoff, None)
    ensures Consistent(rows + [o])
  {
    var after := rows + [o];
    forall i, j | 0 <= i < |after| && 0 <= j < |after| && i != j
      ensures !Clash(after[i], after[j])
    {
      if i == |rows| {
        assert !Blocks(rows[j], o.carId, o.pickup, o.dropoff, None);
      } else if j == |rows| {
        assert !Blocks(rows[i], o.carId, o.pickup, o.dropoff, None);
      } else {
        assert !Clash(rows[i], rows[j]);
      }
    }
  }

  /**
   * Overwriting row k with validated data that passed the check excluding
   * row k's own id keeps the table consistent.
   */
  lemma UpdatePreservesConsistency(rows: seq<Order>, k: nat, d: OrderData)
    requires Consistent(rows) && UniqueIds(rows)
    requires k < |rows|
    requires d.pickup <= d.dropoff
    requires LocationOk(d.pickupLocation) && LocationOk(d.dropoffLocation)
    requires !ConflictExists(rows, d.carId, d.pickup, d.dropoff, Some(rows[k].id))
    ensures Consistent(rows[k := WithData(rows[k], d)])
  {
    var o := WithData(rows[k], d);
    var after := rows[k := o];
    forall i, j | 0 <= i < |after| && 0 <= j < |after| && i != j
      ensures !Clash(after[i], after[j])
    {
      if i == k {
        assert rows[j].id != rows[k].id;
        assert !Blocks(rows[j], o.carId, o.pickup, o.dropoff, Some(rows[k].id));
      } else if j == k {
        assert rows[i].id != rows[k].id;
        assert !Blocks(rows[i], o.carId, o.pickup, o.dropoff, Some(rows[k].id));
      } else {
        assert !Clash(rows[i], rows[j]);
      }
    }
  }

  /** Soft-deleting a row keeps the table consistent. */
  lemma DeletePreservesConsistency(rows: seq<Order>, k: nat)
    requires Consistent(rows)
    requires k < |rows|
    ensures Consistent(rows[k := rows[k].(deleted := true)])
  {
    var after := rows[k := rows[k].(deleted := true)];
    forall i, j | 0 <= i < |after| && 0 <= j < |after| && i != j
      ensures !Clash(after[i], after[j])
    {
      assert !Clash(rows[i], rows[j]);
    }
  }
}
