/**
  * Products and their stock mutations (Product.java).
  *
  * A product holds a quantity, the date of its last change and a circular
  * queue of capacity 4 with its most recent activities. `AddQuantity` and
  * `RemoveQuantity` either do nothing or do all of: change the quantity,
  * set the date, and append exactly one activity. The date is an input
  * (`today`) and the activity counter an explicit `IdGenerator`.
  *
  * `Step` below is the same transition on plain values; the methods are
  * proved to follow it, and `RunKeepsNonNegative` and `RunLogIsLatest`
  * state what any sequence of mutations preserves.
  */
module Products {
  import opened Wrappers
  import opened Activities
  import opened CircularQueue

  /** Every product keeps its last four activities. */
  const LogCapacity := 4

  /** Java's IllegalArgumentException, with its message. */
  datatype StockError = IllegalArgument(message: string)

  /** A stock-mutation request and the date it is made on. */
  datatype Mutation = AddToStock(amount: int, today: Date) | RemoveFromStock(amount: int, today: Date)
  {
    /** The name the source gives the activity this mutation records. */
    function Label(): string
    {
      if AddToStock? then "AddToStock" else "RemoveFromStock"
    }
  }

  /** The new quantity when the product accepts `m`, `None` when it refuses it. */
  function Apply(quantity: int, m: Mutation): Option<int>
  {
    match m
    case AddToStock(q, _) => if q < 0 then None else Some(quantity + q)
    case RemoveFromStock(q, _) => if q < 0 || q > quantity then None else Some(quantity - q)
  }

  /** What a mutation touches: the product's quantity, date and log, and the shared counter. */
  datatype Stock = Stock(quantity: int, lastUpdated: Date, log: seq<Activity>, counter: int)

  /** The activity an accepted mutation records, numbered with the current counter. */
  function Record(s: Stock, m: Mutation): Activity
  {
    Activity(s.counter, m.Label(), m.amount, m.today)
  }

  /** One mutation: refused, nothing changes; accepted, everything changes together. */
  function Step(s: Stock, m: Mutation): Stock
  {
    match Apply(s.quantity, m)
    case None => s
    case Some(n) => Stock(n, m.today, Pushed(s.log, LogCapacity, Record(s, m)), s.counter + 1)
  }

  function Run(s: Stock, ms: seq<Mutation>): Stock
    decreases |ms|
  {
    if ms == [] then s else Run(Step(s, ms[0]), ms[1..])
  }

  /** The activities the accepted mutations of `ms` record, in order. */
  function Recorded(s: Stock, ms: seq<Mutation>): seq<Activity>
    decreases |ms|
  {
    if ms == [] then []
    else
      var rest := Recorded(Step(s, ms[0]), ms[1..]);
      if Apply(s.quantity, ms[0]).Some? then [Record(s, ms[0])] + rest else rest
  }

  /** A single mutation never takes a non-negative quantity below zero. */
  lemma StepKeepsNonNegative(s: Stock, m: Mutation)
    requires s.quantity >= 0
    ensures Step(s, m).quantity >= 0
    ensures Apply(s.quantity, m).None? ==> Step(s, m) == s
  {
  }

  /** Any sequence of mutations, accepted or refused, keeps a non-negative quantity non-negative. */
  lemma {:induction false} RunKeepsNonNegative(s: Stock, ms: seq<Mutation>)
    requires s.quantity >= 0
    ensures Run(s, ms).quantity >= 0
    decreases |ms|
  {
    if ms != [] {
      StepKeepsNonNegative(s, ms[0]);
      RunKeepsNonNegative(Step(s, ms[0]), ms[1..]);
    }
  }

  /**
    * After any sequence of mutations the log holds the last four activities
    * of its old contents followed by those the accepted mutations recorded.
    */
  lemma {:induction false} RunLogIsLatest(s: Stock, ms: seq<Mutation>)
    requires |s.log| <= LogCapacity
    ensures Run(s, ms).log == Latest(s.log + Recorded(s, ms), LogCapacity)
    ensures |Run(s, ms).log| <= LogCapacity
    decreases |ms|
  {
    if ms != [] {
      var t := Step(s, ms[0]);
      var rest := Recorded(t, ms[1..]);
      PushedIsLatest(s.log, LogCapacity, Record(s, ms[0]));
      RunLogIsLatest(t, ms[1..]);
      if Apply(s.quantity, ms[0]).Some? {
        LatestAbsorbs(s.log + [Record(s, ms[0])], rest, LogCapacity);
        assert s.log + [Record(s, ms[0])] + rest == s.log + ([Record(s, ms[0])] + rest);
      }
    }
  }

  /** Recorded activities carry consecutive counter values, and the counter moves past them. */
  lemma {:induction false} RecordedNumbering(s: Stock, ms: seq<Mutation>)
    ensures Run(s, ms).counter == s.counter + |Recorded(s, ms)|
    ensures forall i :: 0 <= i < |Recorded(s, ms)| ==> Recorded(s, ms)[i].number == s.counter + i
    decreases |ms|
  {
    if ms != [] {
      RecordedNumbering(Step(s, ms[0]), ms[1..]);
    }
  }

  class Product {
    const productId: string
    const productName: string
    var lastUpdated: Date
    var productQuantity: int
    const activities: Queue<Activity>

    ghost predicate Valid()
      reads this, activities, activities.data
    {
      activities.Valid() && activities.capacity == LogCapacity
    }

    /** The product's part of `Stock`, with the counter of `gen`. */
    ghost function State(gen: IdGenerator): Stock
      reads this, activities, gen
    {
      Stock(productQuantity, lastUpdated, activities.Contents, gen.counter)
    }

    /** Fields as given (the quantity is not checked here); an empty log; the date is today. */
    constructor (productId: string, productName: string, productQuantity: int, today: Date)
      ensures Valid() && fresh(activities) && fresh(activities.data)
      ensures this.productId == productId && this.productName == productName
      ensures this.productQuantity == productQuantity && lastUpdated == today
      ensures activities.Contents == []
    {
      this.productId := productId;
      this.productName := productName;
      this.productQuantity := productQuantity;
      lastUpdated := today;
      activities := new Queue(LogCapacity);
    }

    function GetProductId(): string
      reads this
    {
      productId
    }

    function GetProductName(): string
      reads this
    {
      productName
    }

    /** The source calls the date of the last change the entry date. */
    function GetEntryDate(): Date
      reads this
    {
      lastUpdated
    }

    function GetProductQuantity(): int
      reads this
    {
      productQuantity
    }

    /** Add `q` to the stock and log "AddToStock"; a negative `q` is an IllegalArgument failure. */
    method AddQuantity(q: int, today: Date, gen: IdGenerator) returns (outcome: Outcome<StockError>)
      requires Valid() && gen.Valid()
      modifies this, activities, activities.data, gen
      ensures Valid() && gen.Valid()
      ensures State(gen) == Step(old(State(gen)), AddToStock(q, today))
      ensures outcome == if q < 0 then Fail(IllegalArgument("Quantity cannot be negative")) else Pass
      ensures q < 0 ==> unchanged(this, activities, activities.data, gen)
      ensures q >= 0 ==>
        && productQuantity == old(productQuantity) + q
        && lastUpdated == today
        && activities.Contents == Pushed(old(activities.Contents), LogCapacity, Activity(old(gen.counter), "AddToStock", q, today))
        && gen.issued == old(gen.issued) + [old(gen.counter)]
      ensures old(productQuantity) >= 0 ==> productQuantity >= 0
    {
      if q < 0 {
        return Fail(IllegalArgument("Quantity cannot be negative"));
      }
      productQuantity := productQuantity + q;
      lastUpdated := today;
      var a := gen.NewActivity("AddToStock", q, today);
      activities.Enqueue(a);
      outcome := Pass;
    }

    /** Take `q` from the stock and log "RemoveFromStock"; false, and no change, when `q` is negative or exceeds the stock. */
    method RemoveQuantity(q: int, today: Date, gen: IdGenerator) returns (ok: bool)
      requires Valid() && gen.Valid()
      modifies this, activities, activities.data, gen
      ensures Valid() && gen.Valid()
      ensures State(gen) == Step(old(State(gen)), RemoveFromStock(q, today))
      ensures ok <==> 0 <= q <= old(productQuantity)
      ensures !ok ==> unchanged(this, activities, activities.data, gen)
      ensures ok ==>
        && productQuantity == old(productQuantity) - q
        && lastUpdated == today
        && activities.Contents == Pushed(old(activities.Contents), LogCapacity, Activity(old(gen.counter), "RemoveFromStock", q, today))
        && gen.issued == old(gen.issued) + [old(gen.counter)]
      ensures old(productQuantity) >= 0 ==> productQuantity >= 0
    {
      if q < 0 {
        return false;
      }
      if q > productQuantity {
        return false;
      }
      productQuantity := productQuantity - q;
      lastUpdated := today;
      var a := gen.NewActivity("RemoveFromStock", q, today);
      activities.Enqueue(a);
      ok := true;
    }

    /** Append an activity built elsewhere, through the same bounded queue. */
    method AddActivity(activity: Activity)
      requires Valid()
      modifies activities, activities.data
      ensures Valid()
      ensures activities.Contents == Pushed(old(activities.Contents), LogCapacity, activity)
      ensures |activities.Contents| == Min(|old(activities.Contents)| + 1, LogCapacity)
    {
      activities.Enqueue(activity);
    }

    /** The retained activities, oldest first, in a new array with no null slot. */
    method GetActivitiesAsArray() returns (r: array<Option<Activity>>)
      requires Valid()
      ensures fresh(r)
      ensures r[..] == Present(activities.Contents)
      ensures r.Length <= LogCapacity
    {
      var empty := new Option<Activity>[0];
      r := activities.ToArray(empty);
    }
  }

  /** A session on one product: add, remove, then refused requests that change nothing. */
  method MutationScenario(today: Date)
  {
    var gen := new IdGenerator();
    var p := new Product("P1", "Milk", 0, today);
    var out := p.AddQuantity(10, today, gen);
    assert out == Pass && p.productQuantity == 10;
    assert p.activities.Contents == [Activity(1, "AddToStock", 10, today)];
    var ok := p.RemoveQuantity(3, today, gen);
    assert ok && p.productQuantity == 7 && |p.activities.Contents| == 2;
    ok := p.RemoveQuantity(100, today, gen);
    assert !ok && p.productQuantity == 7 && |p.activities.Contents| == 2;
    out := p.AddQuantity(-1, today, gen);
    assert out.Fail? && p.productQuantity == 7 && gen.counter == 3;
  }

  /** The identifiers the overflow scenario checks. */
  lemma ScenarioIds()
    ensures IdString(3) == "A3" && IdString(6) == "A6"
  {
  }

  /** Four accepted mutations on a new product: add 10, remove 3, add 1 twice; the log is just full. */
  method FillLogScenario(today: Date) returns (p: Product, gen: IdGenerator)
    ensures fresh(p) && fresh(p.activities) && fresh(p.activities.data) && fresh(gen)
    ensures p.Valid() && gen.Valid() && gen.counter == 5 && p.productQuantity == 9
    ensures p.activities.Contents == [
      Activity(1, "AddToStock", 10, today), Activity(2, "RemoveFromStock", 3, today),
      Activity(3, "AddToStock", 1, today), Activity(4, "AddToStock", 1, today)]
  {
    gen := new IdGenerator();
    p := new Product("P1", "Milk", 0, today);
    var out := p.AddQuantity(10, today, gen);
    assert |p.activities.Contents| == 1 && gen.counter == 2 && p.productQuantity == 10;
    var ok := p.RemoveQuantity(3, today, gen);
    assert |p.activities.Contents| == 2 && gen.counter == 3 && p.productQuantity == 7;
    out := p.AddQuantity(1, today, gen);
    assert |p.activities.Contents| == 3 && gen.counter == 4 && p.productQuantity == 8;
    out := p.AddQuantity(1, today, gen);
  }

  /** Two more adds on a full log: the two oldest activities are evicted, the last four stay, oldest first. */
  method LogOverflowScenario(today: Date)
  {
    var p, gen := FillLogScenario(today);
    ghost var a2, a3, a4 := p.activities.Contents[1], p.activities.Contents[2], p.activities.Contents[3];
    var out := p.AddQuantity(1, today, gen);
    assert p.activities.Contents == [a2, a3, a4, Activity(5, "AddToStock", 1, today)] && gen.counter == 6;
    out := p.AddQuantity(1, today, gen);
    assert p.activities.Contents == [a3, a4, Activity(5, "AddToStock", 1, today), Activity(6, "AddToStock", 1, today)];
    assert p.productQuantity == 11;
    ScenarioIds();
    assert p.activities.Contents[0].Id() == "A3" && p.activities.Contents[3].Id() == "A6";
  }
}
