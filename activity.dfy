/**
  * Stock activities and their identifiers (Activity.java).
  *
  * An activity is immutable once built, so it is a datatype. Its identifier
  * is the string "A" followed by the decimal form of a process-wide counter;
  * the model keeps the counter value (`number`) and derives the string with
  * `IdString`. The counter itself, a static field in the source, is the
  * explicit object `IdGenerator`, passed to whoever creates activities.
  */
module Activities {
  import opened Wrappers

  /** A calendar date; the source reads it from the system clock, here it is an input. */
  datatype Date = Date(epochDay: int)

  datatype Activity = Activity(number: int, name: string, quantity: int, date: Date)
  {
    /** The identifier as the source stores it: "A" and the counter value. */
    function Id(): (s: string)
      ensures |s| >= 2 && s[0] == 'A'
      ensures ParseId(s) == Some(number)
    {
      ParseIdRoundTrip(number);
      IdString(number)
    }
  }

  // ---------------------------------------------------------------------
  // Decimal text of integers, as Java's string concatenation produces it
  // ---------------------------------------------------------------------

  predicate IsDigit(c: char)
  {
    '0' <= c <= '9'
  }

  predicate AllDigits(s: string)
  {
    forall i :: 0 <= i < |s| ==> IsDigit(s[i])
  }

  function DigitChar(d: nat): (c: char)
    requires d < 10
    ensures IsDigit(c) && c as int - '0' as int == d
  {
    ('0' as int + d) as char
  }

  /** Decimal digits of `n`, most significant first, without leading zeros. */
  function Decimal(n: nat): (s: string)
    ensures |s| >= 1 && AllDigits(s)
    ensures |s| > 1 ==> s[0] != '0'
    decreases n
  {
    if n < 10 then [DigitChar(n)] else Decimal(n / 10) + [DigitChar(n % 10)]
  }

  /** The number a string of decimal digits denotes (the empty string denotes 0). */
  function DecimalValue(s: string): nat
    requires AllDigits(s)
    decreases |s|
  {
    if s == [] then 0 else DecimalValue(s[..|s| - 1]) * 10 + (s[|s| - 1] as int - '0' as int)
  }

  lemma {:induction false} DecimalRoundTrip(n: nat)
    ensures DecimalValue(Decimal(n)) == n
  {
    if n >= 10 {
      DecimalRoundTrip(n / 10);
      var s := Decimal(n);
      assert s[..|s| - 1] == Decimal(n / 10);
    }
  }

  /** Java's text of an `int`: a minus sign for negative values, then the digits. */
  function JavaIntString(n: int): string
  {
    if n < 0 then "-" + Decimal(-n) else Decimal(n)
  }

  /** The identifier issued for counter value `n`. */
  function IdString(n: int): string
  {
    "A" + JavaIntString(n)
  }

  /** The integer a Java decimal text denotes, if it is one. */
  function ParseInt(t: string): Option<int>
  {
    if |t| >= 2 && t[0] == '-' && AllDigits(t[1..]) then Some(-(DecimalValue(t[1..]) as int))
    else if |t| >= 1 && AllDigits(t) then Some(DecimalValue(t))
    else None
  }

  /** The counter value an identifier carries, if it has the form "A" + an integer. */
  function ParseId(s: string): Option<int>
  {
    if |s| < 2 || s[0] != 'A' then None else ParseInt(s[1..])
  }

  lemma ParseIntRoundTrip(n: int)
    ensures ParseInt(JavaIntString(n)) == Some(n)
  {
    if n < 0 {
      var d := Decimal(-n);
      var t := "-" + d;
      assert t[0] == '-' && t[1..] == d;
      DecimalRoundTrip(-n);
    } else {
      DecimalRoundTrip(n);
    }
  }

  lemma ParseIdRoundTrip(n: int)
    ensures ParseId(IdString(n)) == Some(n)
  {
    assert IdString(n)[1..] == JavaIntString(n);
    ParseIntRoundTrip(n);
  }

  /** Different counter values never give the same identifier. */
  lemma IdStringInjective(m: int, n: int)
    requires IdString(m) == IdString(n)
    ensures m == n
  {
    ParseIdRoundTrip(m);
    ParseIdRoundTrip(n);
  }

  // ---------------------------------------------------------------------
  // The identifier counter
  // ---------------------------------------------------------------------

  /** `issued` holds the consecutive counter values handed out from `seed` on. */
  ghost predicate IsRunFrom(issued: seq<int>, seed: int)
  {
    forall i :: 0 <= i < |issued| ==> issued[i] == seed + i
  }

  /**
    * The static `counter` of Activity.java as an object. The ghost fields record
    * the value it was last set to (`seed`: 1 at start-up, or the argument of the
    * latest `SetCounter`) and every value issued since then.
    */
  class IdGenerator {
    var counter: int
    ghost var seed: int
    ghost var issued: seq<int>

    ghost predicate Valid()
      reads this
    {
      counter == seed + |issued| && IsRunFrom(issued, seed)
    }

    /** A fresh process: the counter starts at 1. */
    constructor ()
      ensures Valid()
      ensures counter == 1 && seed == 1 && issued == []
    {
      counter := 1;
      seed := 1;
      issued := [];
    }

    /** The Activity constructor: take "A" + counter as the identifier, then advance the counter. */
    method NewActivity(name: string, quantity: int, today: Date) returns (a: Activity)
      requires Valid()
      modifies this
      ensures Valid() && seed == old(seed)
      ensures a.number == old(counter) && a.Id() == IdString(old(counter))
      ensures a.name == name && a.quantity == quantity && a.date == today
      ensures counter == old(counter) + 1
      ensures issued == old(issued) + [a.number]
    {
      a := Activity(counter, name, quantity, today);
      counter := counter + 1;
      issued := issued + [a.number];
    }

    /** Reseed after reloading saved activities: the next identifier is "A" + next. */
    method SetCounter(next: int)
      modifies this
      ensures Valid()
      ensures counter == next && seed == next && issued == []
    {
      counter := next;
      seed := next;
      issued := [];
    }
  }

  /** Within one run, identifiers strictly increase and so never repeat. */
  lemma IssuedIdsDistinct(issued: seq<int>, seed: int)
    requires IsRunFrom(issued, seed)
    ensures forall i, j :: 0 <= i < j < |issued| ==> issued[i] < issued[j]
    ensures forall i, j :: 0 <= i < j < |issued| ==> IdString(issued[i]) != IdString(issued[j])
  {
    forall i, j | 0 <= i < j < |issued|
      ensures IdString(issued[i]) != IdString(issued[j])
    {
      if IdString(issued[i]) == IdString(issued[j]) {
        IdStringInjective(issued[i], issued[j]);
      }
    }
  }

  /**
    * Reseeding with one more than the largest restored counter value: every
    * identifier issued afterwards differs from every restored identifier.
    */
  lemma ReseedAvoidsRestored(restored: seq<Activity>, max: int, issued: seq<int>)
    requires forall k :: 0 <= k < |restored| ==> restored[k].number <= max
    requires IsRunFrom(issued, max + 1)
    ensures forall i :: 0 <= i < |issued| ==> issued[i] > max
    ensures forall k, i :: 0 <= k < |restored| && 0 <= i < |issued| ==>
      restored[k].Id() != IdString(issued[i])
  {
    forall k, i | 0 <= k < |restored| && 0 <= i < |issued|
      ensures restored[k].Id() != IdString(issued[i])
    {
      if restored[k].Id() == IdString(issued[i]) {
        IdStringInjective(restored[k].number, issued[i]);
      }
    }
  }

  /** The documented example: the highest saved identifier "A42" reseeds the counter to 43. */
  lemma ReloadAfterA42()
    ensures ParseId("A42") == Some(42)
    ensures IdString(43) == "A43"
    ensures forall n :: n <= 42 ==> IdString(n) != "A43"
  {
    assert Decimal(43) == Decimal(4) + [DigitChar(3)];
    assert "A42"[1..] == "42";
    assert "42"[..1] == "4" && "4"[..0] == "";
    assert DecimalValue("4") == 4;
    assert DecimalValue("42") == 42;
    forall n | n <= 42
      ensures IdString(n) != "A43"
    {
      if IdString(n) == "A43" {
        IdStringInjective(n, 43);
      }
    }
  }
}
