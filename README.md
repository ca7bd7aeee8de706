# Car-booking conflict check

A Dafny model of the booking core of a car-rental back office. Orders
(reservations) claim a car for a closed range of days `[pickup, dropoff]`.
Before an order is created or changed, the order controller asks whether any
active order of the same car overlaps the requested range. A shared boundary
day counts as an overlap. Soft-deleted orders are kept in the table but take
no part in that check.

Files:

- `Wrappers.dfy`: `Option`.
- `Booking.dfy`: the order row, the overlap test, the conflict query
  `ConflictExists`, request validation, the free-car list, and the table
  invariant `Consistent` (every row well formed, no car double-booked).
- `BookingProperties.dfy`: lemmas about the conflict query and the
  invariant.
- `OrderRepository.dfy`: the repository as a class over the orders table
  (a `seq<Order>` plus the next auto-increment id).
- `OrderController.dfy`: the controller as a class holding the repository;
  `Create` (form listing), `Store`, `Update`, `Destroy`, and
  `BookingScenario`, a client that books a car, is refused a range touching
  that booking, re-saves the booking, deletes it and then books the freed
  range, each step concluded from the controller's contracts alone.

Dates are integer day numbers. The car catalogue (the cars table) is passed
to the controller's actions as a parameter.

`Car::availableFor`, used by the create form
(app/Http/Controllers/OrderController.php:83), is not defined in
`app/Models/Car.php`, which declares no such scope. The model defines it as
"the cars with no active order overlapping the range", in catalogue order
(`Booking.AvailableCars`). This is an assumption.

A conflict is reported as a fixed message on the `car_id` field
(app/Http/Controllers/OrderController.php:118, 160). `update` and `destroy`
look the order up first and answer not-found for a missing or soft-deleted
id before any validation or conflict check (:139, :170).

Validation follows the `required` rule on the two location strings: a
location that is empty or made only of the characters PHP's `trim` strips
(space, tab, newline, carriage return, NUL, vertical tab) is rejected.

## Model

| member | source | states |
|---|---|---|
| `Booking.ConflictExists` | app/Http/Controllers/OrderController.php:108-114 | the query is true exactly when some row has the requested car, is not excluded by id, is not soft-deleted, and has `pickup <= dropoff'` and `dropoff >= pickup'` |
| `Booking.Validate` | app/Http/Controllers/OrderController.php:99-106 | a request fails on `car_id` iff its car is not in the catalogue, on `dropoff_date` iff dropoff is before pickup, and on each location iff it is blank (empty after trimming) or longer than 50 characters; no other field fails |
| `Booking.AvailableCars` | app/Http/Controllers/OrderController.php:83 | a car is listed iff it is in the catalogue and has no active order overlapping the range (the catalogue minus the booked cars) |
| `Booking.ActiveRows` | app/Repositories/OrderRepository.php:9-12 | an order is in the result iff it is in the table and not soft-deleted |
| `Booking.IndexOf` | app/Repositories/OrderRepository.php:14-17 | finds a position holding the id, or none exactly when no row carries that id |
| `BookingProperties.SharedBoundaryDayConflicts` | app/Http/Controllers/OrderController.php:111-112 | for any days, an active order of a car that ends on the requested pickup day or starts on the requested dropoff day makes the query report a conflict for that car |
| `BookingProperties.AdjacentDayDoesNotBlock` | app/Http/Controllers/OrderController.php:111-112 | for any days, an order that ends the day before the requested pickup or starts the day after the requested dropoff never blocks the request |
| `BookingProperties.BlankLocationsRejected` | app/Http/Controllers/OrderController.php:104-105 | an empty pickup location and a whitespace-only dropoff location both fail validation, and nothing else does |
| `BookingProperties.TouchingBoundaryConflicts` | app/Http/Controllers/OrderController.php:111-112 | an active order on days 1-10 conflicts with a request for days 10-15 on its car |
| `BookingProperties.DayBeforeIsFree` | app/Http/Controllers/OrderController.php:111-112 | an order on days 1-10 does not conflict with a request for days 11-15 |
| `BookingProperties.ConflictOnlySeesCar` | app/Http/Controllers/OrderController.php:108 | the query gives the same answer on the whole table as on the rows of the requested car alone |
| `BookingProperties.OtherCarsNeverBlock` | app/Http/Controllers/OrderController.php:149 | two tables that hold the same rows for a car answer the query for that car alike |
| `BookingProperties.OtherCarInsertInvisible` | app/Http/Controllers/OrderController.php:108 | inserting an order for another car does not change a car's rows |
| `BookingProperties.DeletingNeverAddsConflict` | app/Http/Controllers/OrderController.php:109 | after a soft delete the query finds a conflict only where it found one before |
| `BookingProperties.DeleteFreesRange` | app/Http/Controllers/OrderController.php:168-173 | in a consistent table an active order blocks its own range, and once it is soft-deleted that range is free on its car |
| `BookingProperties.ResaveUnchangedSucceeds` | app/Http/Controllers/OrderController.php:149-156 | re-saving an active order with its own car and dates passes the update check, though without the id exclusion it would conflict |
| `BookingProperties.StorePreservesConsistency` | app/Http/Controllers/OrderController.php:99-122 | inserting a validated order that passed the check keeps every row well formed and no car double-booked |
| `BookingProperties.UpdatePreservesConsistency` | app/Http/Controllers/OrderController.php:140-164 | overwriting an order with validated data that passed the check excluding its own id keeps the invariant |
| `BookingProperties.DeletePreservesConsistency` | app/Http/Controllers/OrderController.php:168-173 | a soft delete keeps the invariant |
| `Repository.OrderRepository.All` | app/Repositories/OrderRepository.php:9-12 | returns exactly the orders that are not soft-deleted |
| `Repository.OrderRepository.Find` | app/Repositories/OrderRepository.php:14-17 | fails iff no active order has the id; otherwise returns the active row with that id |
| `Repository.OrderRepository.Create` | app/Repositories/OrderRepository.php:19-22 | appends exactly one active row carrying the data under an id no existing row has; existing rows are untouched |
| `Repository.OrderRepository.Update` | app/Repositories/OrderRepository.php:24-28 | overwrites the fillable attributes of that order's row only, keeps its id and deleted flag, and returns the updated order |
| `Repository.OrderRepository.Delete` | app/Repositories/OrderRepository.php:30-33 | marks that order's row deleted, keeps the row, and changes no other row |
| `Controller.OrderController.Create` | app/Http/Controllers/OrderController.php:75-95 | with a date missing: every car, no message; with both dates: exactly the free cars, and the "all cars booked" message iff that list is empty |
| `Controller.OrderController.Store` | app/Http/Controllers/OrderController.php:97-124 | invalid request: the failing fields, table unchanged; conflict: a `car_id` error, table unchanged; otherwise one new row with the data; the invariant is preserved |
| `Controller.OrderController.Update` | app/Http/Controllers/OrderController.php:137-166 | 404 iff no active order has the id; conflict iff valid and another active order of the car overlaps (own id excluded); on any rejection nothing changes; on success only that order's row is overwritten; the invariant is preserved |
| `Controller.OrderController.Destroy` | app/Http/Controllers/OrderController.php:168-173 | 404 iff no active order has the id, table unchanged; otherwise only that row is marked deleted; the invariant is preserved |

## Left out

- Concurrency: the conflict query and the insert or update are two separate
  table operations, so two concurrent requests can both pass the check. The
  model is sequential, and the invariant is proved for sequential runs only.
- Controller.OrderController.Update: the source's `sometimes` rules let a
  request omit fields, yet the conflict query reads the car and both dates
  unconditionally. The model requires every field, as a full form submission
  sends them.
- Booking.Validate: for the car and the three dates, the `required` and
  `date` rules hold by the types of the request (a missing or unparseable
  value cannot be written down). For the two locations, `required` is
  modelled as "not blank". Laravel's wording of validation messages is not
  modelled, only the set of failing fields.
- Booking.Validate: input trimming by the framework's default TrimStrings
  middleware is not modelled. Locations are checked against `max:50` and
  stored as given, untrimmed. So a location of more than 50 characters that
  trims to 50 or fewer is rejected by the model but accepted by the
  framework.
- Controller.OrderController.Create: PHP's truthiness test on the two date
  strings is modelled as "both present"; a date string that PHP reads as
  false is not representable.
- The car catalogue is a parameter: car CRUD, soft-deleted cars and media
  upload are not modelled, and `exists:cars,id` checks the catalogue given.
- Datetime casts, `order_date` checks beyond its type, and the
  `created_at`/`updated_at` timestamps are not modelled; dates are day
  numbers.
- Eloquent model instances are values identified by their id; the aliasing
  between the instance the controller found and the table row is not
  modelled.
- A failing database (connection or write errors) is not modelled.
- The `index`, `json` (data-table search, sort and pagination) and `edit`
  actions are display plumbing and are not modelled; `withInput()` and the
  redirects are reduced to the `Outcome` value.
