/**
 * The order controller's booking actions: the create form's car list, and
 * store, update and destroy, each a check-then-write step on the orders
 * table held by the repository.
 */
module Controller {
  import opened Wrappers
  import opened Booking
  import opened Repository
  import BookingProperties

  /** The flash and error texts the controller sends back. */
  const NoCarMessage := "Semua mobil telah diorder pada tanggal yang dipilih."
  const ConflictMessage := "Mobil ini sedang diorder pada tanggal tersebut."
  const CreatedMessage := "Order berhasil dibuat."
  const UpdatedMessage := "Order berhasil diperbarui."
  const DeletedMessage := "Order berhasil dihapus."

  /** What the create form is rendered with. */
  datatype FormView = FormView(cars: seq<Car>, noCarMessage: Option<string>)

  /** How a write request ends. */
  datatype Outcome =
    | Done(order: Order, message: string)       // redirect to the order list with a success flash
    | NotFound                                  // `findOrFail` found no active order
    | Invalid(fields: set<Field>)               // validation failed on these fields
    | Conflict(field: Field, message: string)   // back to the form with this field error

  class OrderController {
    const orders: OrderRepository

    constructor(orders: OrderRepository)
      ensures this.orders == orders
    {
      this.orders := orders;
    }

    /**
     * The create form: with a date missing, the whole catalogue and no
     * message; with both dates, the cars free for that range, and the
     * "all cars booked" message exactly when none is free.
     */
    method Create(cars: seq<Car>, pickup: Option<int>, dropoff: Option<int>) returns (view: FormView)
      ensures pickup.None? || dropoff.None? ==> view == FormView(cars, None)
      ensures pickup.Some? && dropoff.Some? ==>
                forall c :: c in view.cars <==>
                  c in cars && !ConflictExists(orders.rows, c.id, pickup.value, dropoff.value, None)
      ensures pickup.Some? && dropoff.Some? ==> (view.noCarMessage.Some? <==> view.cars == [])
      ensures view.noCarMessage.Some? ==> view.noCarMessage.value == NoCarMessage
    {
      if pickup.Some? && dropoff.Some? {
        var free := AvailableCars(cars, orders.rows, pickup.value, dropoff.value);
        view := FormView(free, if free == [] then Some(NoCarMessage) else None);
      } else {
        view := FormView(cars, None);
      }
    }

    /**
     * Validates, rejects on any active order of the same car overlapping the
     * requested range, and otherwise inserts the order.
     */
    method Store(cars: seq<Car>, d: OrderData) returns (out: Outcome)
      requires orders.Valid()
      modifies orders
      ensures orders.Valid()
      ensures Validate(d, cars) != {} ==> out == Invalid(Validate(d, cars)) && unchanged(orders)
      ensures Validate(d, cars) == {} && ConflictExists(old(orders.rows), d.carId, d.pickup, d.dropoff, None) ==>
                out == Conflict(CarId, ConflictMessage) && unchanged(orders)
      ensures Validate(d, cars) == {} && !ConflictExists(old(orders.rows), d.carId, d.pickup, d.dropoff, None) ==>
                && out.Done? && out.message == CreatedMessage
                && out.order == FromData(out.order.id, d)
                && orders.rows == old(orders.rows) + [out.order]
                && (forall i :: 0 <= i < |old(orders.rows)| ==> old(orders.rows)[i].id != out.order.id)
      ensures Consistent(old(orders.rows)) ==> Consistent(orders.rows)
    {
      var failed := Validate(d, cars);
      if failed != {} {
        return Invalid(failed);
      }
      if ConflictExists(orders.rows, d.carId, d.pickup, d.dropoff, None) {
        return Conflict(CarId, ConflictMessage);
      }
      ghost var before := orders.rows;
      var o := orders.Create(d);
      if Consistent(before) {
        BookingProperties.StorePreservesConsistency(before, o);
      }
      out := Done(o, CreatedMessage);
    }

    /**
     * Finds the active order `id`, validates, rejects on any other active
     * order of the requested car overlapping the requested range, and
     * otherwise overwrites the order's attributes.
     */
    method Update(cars: seq<Car>, id: nat, d: OrderData) returns (out: Outcome)
      requires orders.Valid()
      modifies orders
      ensures orders.Valid()
      ensures out.NotFound? <==> forall i :: 0 <= i < |old(orders.rows)| && old(orders.rows)[i].id == id ==> old(orders.rows)[i].deleted
      ensures !out.Done? ==> unchanged(orders)
      ensures out.Invalid? <==> !out.NotFound? && Validate(d, cars) != {}
      ensures out.Invalid? ==> out.fields == Validate(d, cars)
      ensures out.Conflict? <==>
                !out.NotFound? && Validate(d, cars) == {} && ConflictExists(old(orders.rows), d.carId, d.pickup, d.dropoff, Some(id))
      ensures out.Conflict? ==> out == Conflict(CarId, ConflictMessage)
      ensures out.Done? ==>
                && out.message == UpdatedMessage && out.order.id == id && !out.order.deleted
                && |orders.rows| == |old(orders.rows)|
                && forall i :: 0 <= i < |orders.rows| ==>
                     orders.rows[i] == if old(orders.rows)[i].id == id then WithData(old(orders.rows)[i], d) else old(orders.rows)[i]
      ensures Consistent(old(orders.rows)) ==> Consistent(orders.rows)
    {
      var found := orders.Find(id);
      if found.None? {
        return NotFound;
      }
      var order := found.value;
      var failed := Validate(d, cars);
      if failed != {} {
        return Invalid(failed);
      }
      if ConflictExists(orders.rows, d.carId, d.pickup, d.dropoff, Some(id)) {
        return Conflict(CarId, ConflictMessage);
      }
      ghost var before := orders.rows;
      ghost var k :| 0 <= k < |before| && before[k] == order;
      var updated := orders.Update(order, d);
      assert orders.rows == before[k := WithData(before[k], d)];
      if Consistent(before) {
        BookingProperties.UpdatePreservesConsistency(before, k, d);
      }
      out := Done(updated, UpdatedMessage);
    }

    /** Finds the active order `id` and soft-deletes it. */
    method Destroy(id: nat) returns (out: Outcome)
      requires orders.Valid()
      modifies orders
      ensures orders.Valid()
      ensures out.NotFound? ==> unchanged(orders)
      ensures out.NotFound? <==> forall i :: 0 <= i < |old(orders.rows)| && old(orders.rows)[i].id == id ==> old(orders.rows)[i].deleted
      ensures out.Done? ==>
                && out.message == DeletedMessage && out.order.id == id && out.order.deleted
                && |orders.rows| == |old(orders.rows)|
                && forall i :: 0 <= i < |orders.rows| ==>
                     orders.rows[i] == if old(orders.rows)[i].id == id then old(orders.rows)[i].(deleted := true) else old(orders.rows)[i]
      ensures out.Done? || out.NotFound?
      ensures Consistent(old(orders.rows)) ==> Consistent(orders.rows)
    {
      var found := orders.Find(id);
      if found.None? {
        return NotFound;
      }
      var order := found.value;
      ghost var before := orders.rows;
      ghost var k :| 0 <= k < |before| && before[k] == order;
      var _ := orders.Delete(order);
      assert orders.rows == before[k := before[k].(deleted := true)];
      if Consistent(before) {
        BookingProperties.DeletePreservesConsistency(before, k);
      }
      out := Done(order.(deleted := true), DeletedMessage);
    }
  }

  /**
   * A client of the controller: what its contracts alone let a caller
   * conclude about a booking sequence on one car.
   */
  method BookingScenario()
  {
    var cars := [Car(7, "Avanza")];
    var booking := OrderData(7, 1, 1, 10, "Makassar", "Makassar");
    var later := OrderData(7, 1, 10, 15, "Makassar", "Maros");
    var edit := OrderData(7, 2, 1, 10, "Gowa", "Makassar");
    assert Validate(booking, cars) == {} && Validate(later, cars) == {} && Validate(edit, cars) == {} by {
      assert cars[0] in cars;
      assert "Makassar"[0] !in TrimChars && "Maros"[0] !in TrimChars && "Gowa"[0] !in TrimChars;
    }
    var repo := new OrderRepository();
    var app := new OrderController(repo);

    var first := app.Store(cars, booking);
    assert first.Done?;
    var firstId := first.order.id;

    // A request starting on the day the first order ends is refused.
    var touching := app.Store(cars, later);
    assert Blocks(repo.rows[0], 7, 10, 15, None);
    assert touching == Conflict(CarId, ConflictMessage);

    // Re-saving the first order with its own dates passes the update check.
    assert repo.rows == [first.order];
    assert !ConflictExists(repo.rows, 7, 1, 10, Some(firstId));
    var resaved := app.Update(cars, firstId, edit);
    assert resaved.Done?;

    // Once the first order is soft-deleted, the same range can be booked.
    var gone := app.Destroy(firstId);
    assert gone.Done?;
    assert !ConflictExists(repo.rows, 7, 10, 15, None);
    var retry := app.Store(cars, later);
    assert retry.Done?;
  }
}
