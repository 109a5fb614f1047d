/** Order numbers of the form "{year}_{sequence}" and the per-year allocator
    behind `OrderRepository.GetNextOrderSequenceForYear`. */
module OrderNumbers {
  import opened Int32
  import opened Wrappers
  import opened Entities
  import Decimal
  import Text

  /** `$"{year}_{sequence}"`. */
  function Format(year: int, sequence: int): string
  {
    Decimal.Show(year) + "_" + Decimal.Show(sequence)
  }

  /** `$"{year}_"`, the prefix the query filters on. */
  function Prefix(year: int): string
  {
    Decimal.Show(year) + "_"
  }

  /** The orders the sequence query selects: dated in `year` and numbered with its prefix. */
  predicate Considered(o: Order, year: int)
  {
    o.orderDate.year == year && Text.StartsWith(o.orderNumber, Prefix(year))
  }

  /** A number splits into exactly two pieces around '_' and the second is an `int`. */
  predicate WellFormed(number: string)
  {
    var parts := Text.Split(number, '_');
    |parts| == 2 && Decimal.TryParse(parts[1]).Some?
  }

  /** What one order number contributes to the maximum: its parsed suffix, or 0. */
  function Suffix(number: string): I32
  {
    var parts := Text.Split(number, '_');
    if |parts| == 2 then
      match Decimal.TryParse(parts[1])
      case Some(n) => n
      case None => 0
    else 0
  }

  /** The contributions of the considered orders, in row order. */
  function Suffixes(orders: seq<Order>, year: int): (r: seq<I32>)
    ensures |r| <= |orders|
    ensures forall k :: 0 <= k < |orders| && Considered(orders[k], year) ==> Suffix(orders[k].orderNumber) in r
    ensures forall x :: x in r ==> exists k :: 0 <= k < |orders| && Considered(orders[k], year) && Suffix(orders[k].orderNumber) == x
    decreases |orders|
  {
    if |orders| == 0 then []
    else
      var rest := Suffixes(orders[1..], year);
      assert forall k :: 1 <= k < |orders| ==> orders[k] == orders[1..][k - 1];
      if Considered(orders[0], year) then [Suffix(orders[0].orderNumber)] + rest else rest
  }

  /** `DefaultIfEmpty(0).Max()`. */
  function MaxOrDefault(xs: seq<I32>): (m: I32)
    ensures |xs| == 0 ==> m == 0
    ensures |xs| > 0 ==> m in xs
    ensures forall x :: x in xs ==> x <= m
    decreases |xs|
  {
    if |xs| == 0 then 0
    else if |xs| == 1 then xs[0]
    else
      var rest := MaxOrDefault(xs[1..]);
      assert forall x :: x in xs ==> x == xs[0] || x in xs[1..] by {
        assert xs == [xs[0]] + xs[1..];
      }
      if xs[0] >= rest then xs[0] else rest
  }

  /** The largest contribution among the considered orders (0 when there are none). */
  function MaxSuffix(orders: seq<Order>, year: int): I32
  {
    MaxOrDefault(Suffixes(orders, year))
  }

  /** `max + 1` in unchecked `int` arithmetic. */
  function NextSequence(orders: seq<Order>, year: int): I32
  {
    Wrap(MaxSuffix(orders, year) + 1)
  }

  /** The increment does not wrap around. */
  predicate NoOverflow(orders: seq<Order>, year: int)
  {
    MaxSuffix(orders, year) < Max
  }

  /** A number this service formats is well formed and parses back to its sequence. */
  lemma SuffixOfFormat(year: int, n: I32)
    ensures WellFormed(Format(year, n))
    ensures Suffix(Format(year, n)) == n
  {
    Decimal.ShowShape(year);
    Decimal.ShowShape(n);
    Text.SplitPair(Decimal.Show(year), '_', Decimal.Show(n));
    Decimal.ParseShow(n);
  }

  /** An order dated in `year` and numbered by Format for that year is considered. */
  lemma FormatIsConsidered(o: Order, year: int, n: int)
    requires o.orderDate.year == year && o.orderNumber == Format(year, n)
    ensures Considered(o, year)
  {
    assert Format(year, n)[..|Prefix(year)|] == Prefix(year);
  }

  /** Different sequences give different numbers within one year. */
  lemma FormatInjective(year: int, a: I32, b: I32)
    requires a != b
    ensures Format(year, a) != Format(year, b)
  {
    SuffixOfFormat(year, a);
    SuffixOfFormat(year, b);
  }

  /** A malformed number contributes 0. */
  lemma MalformedContributesZero(number: string)
    requires !WellFormed(number)
    ensures Suffix(number) == 0
  {
  }

  /** With nothing considered the next sequence is 1. */
  lemma NextSequenceWhenNoneConsidered(orders: seq<Order>, year: int)
    requires forall k :: 0 <= k < |orders| ==> !Considered(orders[k], year)
    ensures NextSequence(orders, year) == 1
  {
    var xs := Suffixes(orders, year);
    if |xs| > 0 {
      assert xs[0] in xs;
    }
  }

  /** Barring overflow, the next sequence exceeds every considered contribution. */
  lemma NextSequenceExceedsAll(orders: seq<Order>, year: int)
    requires NoOverflow(orders, year)
    ensures NextSequence(orders, year) == MaxSuffix(orders, year) + 1
    ensures forall k :: 0 <= k < |orders| && Considered(orders[k], year) ==>
              Suffix(orders[k].orderNumber) < NextSequence(orders, year)
  {
  }

  /** Barring overflow, the next sequence is the least such value: it is 1 when
      nothing is considered, otherwise one more than some considered contribution. */
  lemma NextSequenceIsTight(orders: seq<Order>, year: int)
    requires NoOverflow(orders, year)
    ensures NextSequence(orders, year) == 1
         || exists k :: 0 <= k < |orders| && Considered(orders[k], year)
                     && Suffix(orders[k].orderNumber) == NextSequence(orders, year) - 1
  {
    var xs := Suffixes(orders, year);
    if |xs| > 0 {
      var m := MaxSuffix(orders, year);
      assert m in xs;
    }
  }

  /** A malformed considered number pulls the maximum up to at least 0. */
  lemma NextSequenceWithMalformed(orders: seq<Order>, year: int, k: int)
    requires 0 <= k < |orders| && Considered(orders[k], year) && !WellFormed(orders[k].orderNumber)
    requires NoOverflow(orders, year)
    ensures NextSequence(orders, year) >= 1
  {
    assert Suffix(orders[k].orderNumber) == 0;
  }

  /** At `int.MaxValue` the increment wraps to `int.MinValue`. */
  lemma NextSequenceWrapsAtMax(orders: seq<Order>, year: int)
    requires MaxSuffix(orders, year) == Max
    ensures NextSequence(orders, year) == Min
  {
  }

  /** Committing an order numbered `Format(year, n)` in `year` makes the next
      sequence for that year strictly larger than `n`, barring overflow. */
  lemma {:induction false} NextSequenceAfterCommit(orders: seq<Order>, o: Order, year: int, n: I32)
    requires o.orderDate.year == year && o.orderNumber == Format(year, n)
    requires NoOverflow(orders + [o], year)
    ensures NextSequence(orders + [o], year) > n
  {
    var all := orders + [o];
    FormatIsConsidered(o, year, n);
    SuffixOfFormat(year, n);
    assert all[|orders|] == o;
    NextSequenceExceedsAll(all, year);
  }

  /** Appending an order can add at most its own contribution to the maximum. */
  lemma {:induction false} MaxSuffixAfterAppend(orders: seq<Order>, o: Order, year: int)
    ensures MaxSuffix(orders + [o], year) <= MaxSuffix(orders, year)
         || MaxSuffix(orders + [o], year) <= Suffix(o.orderNumber)
         || MaxSuffix(orders + [o], year) == 0
  {
    var all := orders + [o];
    var xs := Suffixes(all, year);
    var m := MaxSuffix(all, year);
    if |xs| > 0 {
      assert m in xs;
      var k :| 0 <= k < |all| && Considered(all[k], year) && Suffix(all[k].orderNumber) == m;
      if k < |orders| {
        assert all[k] == orders[k];
        assert m in Suffixes(orders, year);
      } else {
        assert all[k] == o;
      }
    }
  }
}
