# Stock mutations and the bounded activity log, in Dafny

This project models the core of a small Java inventory tracker: a product's
quantity, the two stock mutations that change it, the activity records they
produce, and the fixed-capacity circular queue that keeps only the last four
activities of each product. It follows three Java classes:

- `Queue.java` becomes the class `CircularQueue.Queue<T>` over an
  `array<Option<T>>` (`None` plays Java's `null`), with the fields `front`,
  `rear`, `size`, `capacity` and a ghost sequence `Contents` of the resident
  elements, oldest first. `Valid()` is the representation invariant:
  `0 <= size <= capacity`, `0 <= front < capacity`,
  `(rear + 1) % capacity == (front + size) % capacity`, and
  `Contents[i]` is stored at `data[(front + i) % capacity]`. Stale slots
  outside the live window are not part of `Contents`.
  The functions `Pushed`, `PushAll` and `Latest` describe the same log on
  plain sequences; the queue's methods are proved against them.
- `Activity.java` becomes the immutable datatype `Activities.Activity`,
  whose identifier is kept as its numeric suffix `number`; the string form
  `"A" + number` is `IdString(number)` (Java's decimal text, with a minus
  sign for negative values), and `ParseId` is its inverse. The static
  `counter` becomes the object `Activities.IdGenerator`, which the
  constructor of an activity (`NewActivity`) reads and advances, and
  `SetCounter` reseeds. Ghost fields record the seed and the values issued
  since then.
- `Product.java` becomes the class `Products.Product`, owning a queue of
  capacity 4. `AddQuantity` reports the source's `IllegalArgumentException`
  as `Fail(IllegalArgument("Quantity cannot be negative"))`;
  `RemoveQuantity` returns `false`, as the source does. Both are proved to
  follow `Step`, a transition on plain values (quantity, date, log,
  counter), about which the lemmas over whole sequences of mutations are
  stated. The current date is an input `today`; the counter is passed in as
  an `IdGenerator`.

`Wrappers` holds `Option`, `Outcome` and `Min`. Two methods are verified
clients of a new product with quantity 0. `Products.MutationScenario` adds
10 and removes 3, then shows that a removal of 100 and an add of -1 are
refused and change nothing. `Products.FillLogScenario` fills the log with
four accepted mutations (add 10, remove 3, two adds of 1), and
`Products.LogOverflowScenario` continues it with two more adds of 1;
afterwards the log holds the last four activities, with identifiers "A3"
to "A6", oldest first.

The two mutations signal failure in different ways (an exception for a
negative add, `false` for a refused removal). The model keeps that
difference, because the code has it; a uniform result type for both would be
a redesign, not the behaviour of this code.

## Model

| member | source | states |
|---|---|---|
| `CircularQueue.Queue.constructor` | Queue.java:44-50 | a new queue of capacity at least 1 is valid and empty: `front == 0`, `rear == -1`, `size == 0`, `Contents == []`, over a fresh array of `capacity` slots, every one null |
| `CircularQueue.Queue.Enqueue` | Queue.java:60-67 | keeps the invariant; the new contents are the old ones with `item` appended, minus the oldest element exactly when the queue was full; `size == min(old size + 1, capacity)` |
| `CircularQueue.Queue.Dequeue` | Queue.java:74-80 | on an empty queue returns null and changes nothing; otherwise returns the oldest element, drops it from the contents and decrements `size`; `rear` never moves |
| `CircularQueue.Queue.IsEmpty` | Queue.java:83 | true exactly when no element is resident |
| `CircularQueue.Queue.IsFull` | Queue.java:86 | true exactly when the number of resident elements equals the capacity |
| `CircularQueue.Queue.GetSize` | Queue.java:89 | the number of resident elements, between 0 and the capacity |
| `CircularQueue.Queue.ToArray` | Queue.java:101-108 | positions `0..size-1` of the result hold the resident elements oldest first; a too-short argument is replaced by a fresh array of length `size`, otherwise the argument itself is filled, `a[size]` set to null when longer, and the rest left as it was |
| `CircularQueue.PushedIsLatest` | Queue.java:60-67 | one append to a log within its capacity leaves exactly the last `capacity` elements of the old contents followed by the new item |
| `CircularQueue.PushAllIsLatest` | Queue.java:52-67 | after any sequence of appends the log holds exactly the most recent `capacity` elements ever appended, in insertion order |
| `CircularQueue.CapacityBound` | Queue.java:60-67 | N appends to an empty log of capacity C leave `min(N, C)` entries |
| `CircularQueue.FifoEviction` | Queue.java:61-65 | C + 1 appends to an empty log of capacity C leave elements 2 to C + 1, in order: the first one is evicted |
| `Activities.Activity.Id` | Activity.java:43-53 | the identifier starts with "A" and parses back to the activity's counter value |
| `Activities.ParseIdRoundTrip` | Activity.java:44 | the counter value can be read back from every identifier `"A" + counter` |
| `Activities.IdStringInjective` | Activity.java:44 | two counter values give the same identifier only when they are equal |
| `Activities.IdGenerator.constructor` | Activity.java:22 | the counter starts at 1, so the first identifier of a fresh process is "A1" |
| `Activities.IdGenerator.NewActivity` | Activity.java:43-48 | the activity gets the identifier "A" + counter and the name, quantity and date exactly as given; then the counter goes up by exactly 1 and the issued value joins the run |
| `Activities.IdGenerator.SetCounter` | Activity.java:64-70 | the next identifier issued is "A" + `next`; a new run starts there |
| `Activities.IssuedIdsDistinct` | Activity.java:15-22 | without a reseed in between, issued values strictly increase and their identifiers are pairwise distinct |
| `Activities.ReseedAvoidsRestored` | Activity.java:64-70 | after reseeding with one more than the largest restored value, every identifier issued differs from every restored identifier |
| `Activities.ReloadAfterA42` | Activity.java:64-70 | the documented example: "A42" carries 42, the reseeded counter 43 gives "A43", and "A43" equals no identifier with a value up to 42 |
| `Products.Product.constructor` | Product.java:24-31 | id, name and quantity stored as given (the quantity unchecked), the date is today, the activity log is empty with capacity 4 |
| `Products.Product.AddQuantity` | Product.java:49-60 | a negative `q` fails with the IllegalArgument error and changes nothing; otherwise the quantity grows by exactly `q`, the date becomes today and one "AddToStock" activity for `q`, numbered with the counter, is appended to the log; the result follows `Step` |
| `Products.Product.RemoveQuantity` | Product.java:63-74 | returns true exactly when `0 <= q <= quantity`; false changes nothing; true lowers the quantity by exactly `q` (staying non-negative), sets the date and appends one "RemoveFromStock" activity for `q`; the result follows `Step` |
| `Products.Product.AddActivity` | Product.java:76-79 | the activity goes through the same bounded append: the log keeps at most 4 entries in FIFO order |
| `Products.Product.GetActivitiesAsArray` | Product.java:82-88 | a fresh array holding exactly the resident activities, oldest first, at most 4 |
| `Products.StepKeepsNonNegative` | Product.java:54-74 | one mutation keeps a non-negative quantity non-negative, and a refused one changes nothing |
| `Products.RunKeepsNonNegative` | Product.java:54-74 | every sequence of add and remove requests, accepted or refused, keeps a non-negative starting quantity non-negative |
| `Products.RunLogIsLatest` | Product.java:23-24 | after any sequence of mutations the log holds at most 4 entries: the last 4 of its old contents followed by the activities the accepted mutations recorded |
| `Products.RecordedNumbering` | Product.java:54-74 | the activities a sequence of mutations records carry consecutive counter values, and the counter ends past them |

## Left out

- Java serialization (`Serializable`, `serialVersionUID`): object-graph I/O.
- `LocalDate.now()`: the date is the input `today`; no clock.
- `toString` in all three classes: presentation only.
- Runtime array types in `Queue.toArray` (`Arrays.copyOf` keeping the component type): the fresh array is an `array<Option<T>>` with the argument's elements copied in.
- Java `int` overflow in `productQuantity += q` and `counter++`: integers are unbounded.
- `CircularQueue.Queue.constructor`: requires a capacity of at least 1. In Java a capacity of 0 builds a queue whose first enqueue divides by zero, and a negative one throws; the only use is capacity 4.
- `CircularQueue.Queue.Enqueue`: enqueueing Java's `null` itself is not modelled; elements are values of `T`, so a `null` returned by `Dequeue` always means "empty".
- `CircularQueue.Queue.ToArray`: requires that the argument is not the queue's own backing array, which is private in the source.
- The product getters (`GetProductId`, `GetProductName`, `GetEntryDate`, `GetProductQuantity`) and the activity getters (the datatype's fields) return the stored fields; they carry no contract of their own.
- The catalog (`ProductManager`): lookup, search, sorting, and loading and saving files, including the code that computes the largest restored identifier and calls `setCounter`, is not part of this model; `ReseedAvoidsRestored` states what that call achieves.
- The Swing user interface (`DashboardGUI.java`), including its check that an initial quantity is not negative before a product is built.
