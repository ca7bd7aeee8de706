/**
 * The pure part of the order workflow: the rows of the orders table, the
 * closed-interval overlap test, the conflict query the controller runs before
 * every write, request validation, and the list of cars free for a date range.
 * Dates are day numbers.
 */
module Booking {
  import opened Wrappers

  /** A car as the order form lists it. */
  datatype Car = Car(id: nat, name: string)

  /** One row of the orders table; `deleted` stands for a non-null `deleted_at`. */
  datatype Order = Order(
    id: nat,
    carId: nat,
    orderDate: int,
    pickup: int,
    dropoff: int,
    pickupLocation: string,
    dropoffLocation: string,
    deleted: bool)

  /** The fillable attributes a store or update request carries. */
  datatype OrderData = OrderData(
    carId: nat,
    orderDate: int,
    pickup: int,
    dropoff: int,
    pickupLocation: string,
    dropoffLocation: string)

  /** The request fields a validation error can be reported against. */
  datatype Field = CarId | OrderDate | PickupDate | DropoffDate | PickupLocation | DropoffLocation

  /** The `max:50` rule on both location fields. */
  const MaxLocationLength: nat := 50

  /** The characters PHP's `trim` strips by default. */
  const TrimChars: set<char> := {' ', '\t', '\n', '\r', '\0', '\U{000B}'}

  /**
   * A string the `required` rule treats as missing: empty once trimmed, that
   * is, made only of trimmed characters.
   */
  predicate Blank(s: string) {
    forall i :: 0 <= i < |s| ==> s[i] in TrimChars
  }

  /** A location as `required|string|max:50` accepts it. */
  predicate LocationOk(s: string) {
    !Blank(s) && |s| <= MaxLocationLength
  }

  /** The row a create request inserts under the id the table assigns. */
  function FromData(id: nat, d: OrderData): Order {
    Order(id, d.carId, d.orderDate, d.pickup, d.dropoff, d.pickupLocation, d.dropoffLocation, false)
  }

  /** The row after an update request overwrote its fillable attributes. */
  function WithData(o: Order, d: OrderData): Order {
    o.(carId := d.carId, orderDate := d.orderDate, pickup := d.pickup, dropoff := d.dropoff,
       pickupLocation := d.pickupLocation, dropoffLocation := d.dropoffLocation)
  }

  /**
   * The closed-interval test of the conflict query: a stored range
   * [pickup, dropoff] meets the wanted range [wantPickup, wantDropoff].
   * A shared boundary day counts.
   */
  predicate Overlaps(pickup: int, dropoff: int, wantPickup: int, wantDropoff: int) {
    pickup <= wantDropoff && dropoff >= wantPickup
  }

  /**
   * Row `o` is one the conflict query finds: same car, not the excluded id,
   * not soft-deleted, and its range overlaps the wanted one.
   */
  predicate Blocks(o: Order, carId: nat, pickup: int, dropoff: int, exclude: Option<nat>) {
    && o.carId == carId
    && (exclude.None? || o.id != exclude.value)
    && !o.deleted
    && Overlaps(o.pickup, o.dropoff, pickup, dropoff)
  }

  /**
   * The `exists()` query run before an insert (exclude = None) or before an
   * update of order `id` (exclude = Some(id)).
   */
  function ConflictExists(rows: seq<Order>, carId: nat, pickup: int, dropoff: int, exclude: Option<nat>): (r: bool)
    ensures r <==> exists i :: 0 <= i < |rows| && Blocks(rows[i], carId, pickup, dropoff, exclude)
  {
    if rows == [] then false
    else if Blocks(rows[0], carId, pickup, dropoff, exclude) then true
    else
      var rest := ConflictExists(rows[1..], carId, pickup, dropoff, exclude);
      assert forall i :: 1 <= i < |rows| ==> rows[i] == rows[1..][i - 1];
      rest
  }

  /** Some car of the catalogue has this id (the `exists:cars,id` rule). */
  predicate CarExists(cars: seq<Car>, carId: nat) {
    exists c :: c in cars && c.id == carId
  }

  /**
   * The fields a request fails validation on. For the car and the three
   * dates, `required` and `date` hold by the types of OrderData; what is
   * left are the car's existence, the `after_or_equal:pickup_date` rule,
   * and `required` and `max:50` on the two locations.
   */
  function Validate(d: OrderData, cars: seq<Car>): (failed: set<Field>)
    ensures failed <= {CarId, DropoffDate, PickupLocation, DropoffLocation}
    ensures CarId in failed <==> !CarExists(cars, d.carId)
    ensures DropoffDate in failed <==> d.dropoff < d.pickup
    ensures PickupLocation in failed <==> Blank(d.pickupLocation) || |d.pickupLocation| > MaxLocationLength
    ensures DropoffLocation in failed <==> Blank(d.dropoffLocation) || |d.dropoffLocation| > MaxLocationLength
  {
    (if CarExists(cars, d.carId) then {} else {CarId})
    + (if d.pickup <= d.dropoff then {} else {DropoffDate})
    + (if LocationOk(d.pickupLocation) then {} else {PickupLocation})
    + (if LocationOk(d.dropoffLocation) then {} else {DropoffLocation})
  }

  /** A row as validation lets it into the table. */
  ghost predicate WellFormed(o: Order) {
    && o.pickup <= o.dropoff
    && LocationOk(o.pickupLocation)
    && LocationOk(o.dropoffLocation)
  }

  /** Two active rows that book one car on a common day. */
  predicate Clash(a: Order, b: Order) {
    && !a.deleted && !b.deleted
    && a.carId == b.carId
    && Overlaps(a.pickup, a.dropoff, b.pickup, b.dropoff)
  }

  /** No car is double-booked: no two active rows of one car overlap. */
  ghost predicate NoDoubleBooking(rows: seq<Order>) {
    forall i, j :: 0 <= i < |rows| && 0 <= j < |rows| && i != j ==> !Clash(rows[i], rows[j])
  }

  /** Order ids are distinct, as the table's primary key makes them. */
  ghost predicate UniqueIds(rows: seq<Order>) {
    forall i, j :: 0 <= i < |rows| && 0 <= j < |rows| && i != j ==> rows[i].id != rows[j].id
  }

  /** The invariant the controller's writes keep on the orders table. */
  ghost predicate Consistent(rows: seq<Order>) {
    && (forall i :: 0 <= i < |rows| ==> WellFormed(rows[i]))
    && NoDoubleBooking(rows)
  }

  /**
   * The cars free for [pickup, dropoff]: the catalogue minus every car with
   * an active order overlapping that range, in catalogue order.
   */
  function AvailableCars(cars: seq<Car>, rows: seq<Order>, pickup: int, dropoff: int): (free: seq<Car>)
    ensures |free| <= |cars|
    ensures forall c :: c in free <==> c in cars && !ConflictExists(rows, c.id, pickup, dropoff, None)
  {
    if cars == [] then []
    else
      var rest := AvailableCars(cars[1..], rows, pickup, dropoff);
      assert forall c :: c in cars <==> c == cars[0] || c in cars[1..];
      if ConflictExists(rows, cars[0].id, pickup, dropoff, None) then rest else [cars[0]] + rest
  }

  /** The active rows of the table (the soft-delete scope), in table order. */
  function ActiveRows(rows: seq<Order>): (active: seq<Order>)
    ensures |active| <= |rows|
    ensures forall o :: o in active <==> o in rows && !o.deleted
  {
    if rows == [] then []
    else
      var rest := ActiveRows(rows[1..]);
      assert forall o :: o in rows <==> o == rows[0] || o in rows[1..];
      if rows[0].deleted then rest else [rows[0]] + rest
  }

  /** The position of the row with id `id`, if the table has one. */
  function IndexOf(rows: seq<Order>, id: nat): (k: Option<nat>)
    ensures k.Some? ==> k.value < |rows| && rows[k.value].id == id
    ensures k.None? <==> forall i :: 0 <= i < |rows| ==> rows[i].id != id
  {
    if rows == [] then None
    else if rows[0].id == id then Some(0)
    else
      match IndexOf(rows[1..], id)
      case None =>
        assert forall i :: 1 <= i < |rows| ==> rows[i] == rows[1..][i - 1];
        None
      case Some(k) => Some(k + 1)
  }
}
