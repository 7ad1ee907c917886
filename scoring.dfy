/**
 * The receipt scoring engine: the `item` and `receipt` records,
 * `removeNonAlphaNum`, and `calculatePoints`, which adds up seven independent
 * rules. `Score` states the rules one by one as functions of the receipt;
 * `CalculatePoints` is the step-by-step computation of the source, proved to
 * produce `Score`.
 */
module Scoring {
  import opened Results
  import opened GoStrings
  import opened StrConv

  /** One purchased item; the price is decimal text such as "2.25". */
  datatype Item = Item(shortDescription: string, price: string)

  /** A receipt as submitted; every field is text as it came in. */
  datatype Receipt = Receipt(
    retailer: string,
    purchaseDate: string,
    purchaseTime: string,
    items: seq<Item>,
    total: string)

  /**
   * Scoring fails only one way: indexing a `strings.Split` result past its
   * end, which panics in Go ("index out of range [index] with length length").
   */
  datatype ScoreError = IndexOutOfRange(index: nat, length: nat)

  /** A character of the class `[a-zA-Z0-9]`. */
  predicate IsAsciiAlnum(c: char)
  {
    'a' <= c <= 'z' || 'A' <= c <= 'Z' || '0' <= c <= '9'
  }

  /**
   * `removeNonAlphaNum`: deletes every run of characters outside `[a-zA-Z0-9]`.
   * What is left is made of those characters only, and keeps every one of them.
   */
  function RemoveNonAlphaNum(s: string): (t: string)
    ensures |t| <= |s|
  {
    if s == [] then []
    else
      (if IsAsciiAlnum(s[0]) then [s[0]] else []) + RemoveNonAlphaNum(s[1..])
  }

  /** Only `[a-zA-Z0-9]` characters are left. */
  lemma {:induction false} RemoveNonAlphaNumLeavesAlnum(s: string)
    ensures forall i :: 0 <= i < |RemoveNonAlphaNum(s)| ==> IsAsciiAlnum(RemoveNonAlphaNum(s)[i])
  {
    if s != [] {
      RemoveNonAlphaNumLeavesAlnum(s[1..]);
    }
  }

  /** Removal works character by character, so it keeps the order of the text. */
  lemma {:induction false} RemoveNonAlphaNumConcat(a: string, b: string)
    ensures RemoveNonAlphaNum(a + b) == RemoveNonAlphaNum(a) + RemoveNonAlphaNum(b)
  {
    if a != [] {
      assert (a + b)[0] == a[0];
      assert (a + b)[1..] == a[1..] + b;
      RemoveNonAlphaNumConcat(a[1..], b);
    } else {
      assert a + b == b;
    }
  }

  /** Text made only of `[a-zA-Z0-9]` characters is left as it is. */
  lemma {:induction false} RemoveNonAlphaNumKeepsAlnum(s: string)
    requires forall i :: 0 <= i < |s| ==> IsAsciiAlnum(s[i])
    ensures RemoveNonAlphaNum(s) == s
  {
    if s != [] {
      assert IsAsciiAlnum(s[0]);
      RemoveNonAlphaNumKeepsAlnum(s[1..]);
      assert [s[0]] + s[1..] == s;
    }
  }

  /** Removing twice removes nothing more. */
  lemma {:induction false} RemoveNonAlphaNumIdempotent(s: string)
    ensures RemoveNonAlphaNum(RemoveNonAlphaNum(s)) == RemoveNonAlphaNum(s)
  {
    if s != [] {
      var head := if IsAsciiAlnum(s[0]) then [s[0]] else [];
      RemoveNonAlphaNumConcat(head, RemoveNonAlphaNum(s[1..]));
      RemoveNonAlphaNumIdempotent(s[1..]);
    }
  }

  // ---------------------------------------------------------------------------
  // The seven rules

  /** Rule 1: one point per `[a-zA-Z0-9]` character of the retailer name. */
  function RetailerPoints(retailer: string): (n: nat)
    ensures n == |RemoveNonAlphaNum(retailer)| <= |retailer|
  {
    var kept := RemoveNonAlphaNum(retailer);
    RemoveNonAlphaNumLeavesAlnum(retailer);
    AsciiByteLen(kept);
    ByteLen(kept)
  }

  /** The retailer rule adds up over the parts of a name. */
  lemma RetailerPointsConcat(a: string, b: string)
    ensures RetailerPoints(a + b) == RetailerPoints(a) + RetailerPoints(b)
  {
    RemoveNonAlphaNumConcat(a, b);
  }

  /** Each character adds one point to the retailer rule if it is alphanumeric, none otherwise. */
  lemma RetailerPointsPerCharacter(a: string, c: char, b: string)
    ensures RetailerPoints(a + [c] + b) == RetailerPoints(a + b) + (if IsAsciiAlnum(c) then 1 else 0)
  {
    RemoveNonAlphaNumConcat(a + [c], b);
    RemoveNonAlphaNumConcat(a, [c]);
    RemoveNonAlphaNumConcat(a, b);
    assert RemoveNonAlphaNum([c]) == if IsAsciiAlnum(c) then [c] else [];
  }

  /**
   * The retailer rule counts exactly the alphanumeric characters, kind by
   * kind: each `[a-zA-Z0-9]` character is kept as often as it occurs, and
   * nothing else is kept.
   */
  lemma {:induction false} RetailerPointsCount(retailer: string)
    ensures forall c :: IsAsciiAlnum(c) ==>
              multiset(RemoveNonAlphaNum(retailer))[c] == multiset(retailer)[c]
    ensures forall c :: !IsAsciiAlnum(c) ==> multiset(RemoveNonAlphaNum(retailer))[c] == 0
  {
    var t := RemoveNonAlphaNum(retailer);
    if retailer != [] {
      var head := if IsAsciiAlnum(retailer[0]) then [retailer[0]] else [];
      RetailerPointsCount(retailer[1..]);
      assert retailer == [retailer[0]] + retailer[1..];
      assert t == head + RemoveNonAlphaNum(retailer[1..]);
    }
    forall c | !IsAsciiAlnum(c) ensures multiset(t)[c] == 0 {
      assert c !in t;
    }
  }

  /** The amount `total` stands for; text that does not parse counts as 0. */
  function TotalAmount(total: string): (a: Decimal)
    ensures ParseFloat(TrimSpace(total)).err != NoError ==> a == Decimal(0, 0)
  {
    ParseFloat(TrimSpace(total)).value
  }

  /** Rule 2: 50 points for a round-dollar total. */
  function RoundDollarPoints(total: string): (n: nat)
    ensures n == 50 || n == 0
    ensures n == 50 <==> TotalAmount(total).mantissa % Pow10(TotalAmount(total).scale) == 0
  {
    IsWholeMod(TotalAmount(total));
    if IsWhole(TotalAmount(total)) then 50 else 0
  }

  /** Rule 3: 25 points for a total that is a multiple of 0.25. */
  function QuarterPoints(total: string): (n: nat)
    ensures n == 25 || n == 0
    ensures n == 25 <==> (4 * TotalAmount(total).mantissa) % Pow10(TotalAmount(total).scale) == 0
  {
    if IsQuarterMultiple(TotalAmount(total)) then 25 else 0
  }

  /** A round-dollar total earns both total rules, 75 points in all. */
  lemma RoundDollarEarns75(total: string)
    requires IsWhole(TotalAmount(total))
    ensures RoundDollarPoints(total) + QuarterPoints(total) == 75
  {
    WholeIsQuarterMultiple(TotalAmount(total));
  }

  /** A total that does not parse counts as 0, which is round, so it earns 75 points. */
  lemma MalformedTotalEarns75(total: string)
    requires ParseFloat(TrimSpace(total)).err != NoError
    ensures RoundDollarPoints(total) + QuarterPoints(total) == 75
  {
    assert TotalAmount(total) == Decimal(0, 0);
  }

  /** A total written with a decimal comma, such as "9,25", does not parse, so it earns 75 points. */
  lemma CommaTotalEarns75(dollars: string, cents: string)
    requires AllDigits(dollars) && AllDigits(cents)
    ensures RoundDollarPoints(dollars + "," + cents) + QuarterPoints(dollars + "," + cents) == 75
  {
    var total := dollars + "," + cents;
    assert total[0] == if dollars == [] then ',' else dollars[0];
    assert total[|total| - 1] == if cents == [] then ',' else cents[|cents| - 1];
    TrimSpaceOfPadded("", total, "");
    assert "" + total + "" == total;
    CommaIsSyntaxError(dollars, cents);
    MalformedTotalEarns75(total);
  }

  /** A total written as dollars, a point and two cent digits stands for its count of cents. */
  lemma TotalInCents(total: string, dollars: nat, cents: nat)
    requires cents < 100
    requires total == FormatNat(dollars) + "." + [DigitChar(cents / 10), DigitChar(cents % 10)]
    ensures TotalAmount(total) == Decimal(100 * dollars + cents, 2)
  {
    assert IsDigit(total[0]) && IsDigit(total[|total| - 1]);
    TrimSpaceOfPadded("", total, "");
    assert "" + total + "" == total;
    ParseFloatDollarsCents(dollars, cents);
  }

  /**
   * For a total written as dollars, a point and two cent digits, the round-dollar
   * rule applies exactly when the cents are 00 and the quarter rule exactly when
   * they are 00, 25, 50 or 75.
   */
  lemma CentsTotalPoints(total: string, dollars: nat, cents: nat)
    requires cents < 100
    requires total == FormatNat(dollars) + "." + [DigitChar(cents / 10), DigitChar(cents % 10)]
    ensures RoundDollarPoints(total) == if cents == 0 then 50 else 0
    ensures QuarterPoints(total) == if cents % 25 == 0 then 25 else 0
  {
    TotalInCents(total, dollars, cents);
    AmountInCentsPoints(total, dollars, cents);
  }

  /** For a total of `dollars` and `cents`, both total rules are tests on the cents. */
  lemma AmountInCentsPoints(total: string, dollars: nat, cents: nat)
    requires cents < 100
    requires TotalAmount(total) == Decimal(100 * dollars + cents, 2)
    ensures RoundDollarPoints(total) == if cents == 0 then 50 else 0
    ensures QuarterPoints(total) == if cents % 25 == 0 then 25 else 0
  {
    CentsView(100 * dollars + cents);
    CentsOfAmount(dollars, cents);
  }

  lemma CentsOfAmount(dollars: nat, cents: nat)
    requires cents < 100
    ensures (100 * dollars + cents) % 100 == cents
    ensures (100 * dollars + cents) % 25 == cents % 25
  {
    assert 100 * dollars + cents == 25 * (4 * dollars) + cents;
  }

  /** A quarter total that is not round, such as 9.25, earns the 25 points only. */
  lemma QuarterTotalEarns25()
    ensures RoundDollarPoints("9.25") + QuarterPoints("9.25") == 25
  {
    CentsTotalPoints("9.25", 9, 25);
  }

  /** Rule 4: five points for every pair of items. */
  function PairPoints(count: nat): (n: nat)
    ensures n % 5 == 0
    ensures 2 * n <= 5 * count < 2 * n + 10
  {
    5 * (count / 2)
  }

  /** One more item adds a pair exactly when the item count becomes even. */
  lemma PairPointsStep(n: nat)
    ensures PairPoints(n + 1) == PairPoints(n) + (if (n + 1) % 2 == 0 then 5 else 0)
  {
  }

  /** The amount `item.price` stands for; text that does not parse counts as 0. */
  function PriceOf(item: Item): (a: Decimal)
    ensures ParseFloat(TrimSpace(item.price)).err != NoError ==> a == Decimal(0, 0)
  {
    ParseFloat(TrimSpace(item.price)).value
  }

  /**
   * Rule 5, for one item: if the trimmed description is a multiple of three
   * bytes long, the price times 0.2, rounded up.
   */
  function ItemPoints(item: Item): (n: int)
    ensures n != 0 ==> ByteLen(TrimSpace(item.shortDescription)) % 3 == 0
    ensures PriceOf(item).mantissa >= 0 ==> n >= 0
  {
    if ByteLen(TrimSpace(item.shortDescription)) % 3 == 0 then CeilFifth(PriceOf(item)) else 0
  }

  /**
   * A qualifying item earns the least whole number of points at least a fifth
   * of its price; any other item earns nothing.
   */
  lemma ItemPointsCeil(item: Item)
    ensures var n, price, p := ItemPoints(item), PriceOf(item), 5 * Pow10(PriceOf(item).scale);
            if ByteLen(TrimSpace(item.shortDescription)) % 3 == 0
            then p * (n - 1) < price.mantissa <= p * n
            else n == 0
  {
    CeilFifthBounds(PriceOf(item));
  }

  /** A price that does not parse counts as 0, so the item earns nothing. */
  lemma MalformedPriceEarnsNothing(item: Item)
    requires ParseFloat(TrimSpace(item.price)).err != NoError
    ensures ItemPoints(item) == 0
  {
    assert PriceOf(item) == Decimal(0, 0);
  }

  /** Rule 5: the item points of the first `n` items. */
  function DescriptionPoints(items: seq<Item>, n: nat): int
    requires n <= |items|
  {
    if n == 0 then 0 else DescriptionPoints(items, n - 1) + ItemPoints(items[n - 1])
  }

  /** One more item adds the item rule for that item, as `calculatePoints` computes it. */
  lemma DescriptionPointsStep(items: seq<Item>, i: nat)
    requires i < |items|
    ensures DescriptionPoints(items, i + 1) == DescriptionPoints(items, i) +
              if ByteLen(TrimSpace(items[i].shortDescription)) % 3 == 0
              then CeilFifth(ParseFloat(TrimSpace(items[i].price)).value) else 0
  {
  }

  /** No item with a non-negative price takes points away. */
  lemma DescriptionPointsNonNegative(items: seq<Item>, n: nat)
    requires n <= |items|
    requires forall item :: item in items ==> PriceOf(item).mantissa >= 0
    ensures DescriptionPoints(items, n) >= 0
  {
  }

  /** An item whose trimmed description is empty still qualifies (0 is a multiple of 3). */
  lemma BlankDescriptionQualifies(item: Item)
    requires AllSpace(item.shortDescription)
    ensures ItemPoints(item) == CeilFifth(PriceOf(item))
  {
    TrimSpaceOfPadded(item.shortDescription, "", "");
    assert item.shortDescription + "" + "" == item.shortDescription;
  }

  /** The third `-`-separated field of the purchase date, parsed; 0 if it does not parse. */
  function DayOf(date: string): (day: int)
    requires |Split(date, '-')| > 2
    ensures MinInt64 <= day <= MaxInt64
    ensures ParseInt(Split(date, '-')[2]).err == ErrSyntax ==> day == 0
  {
    ParseInt(Split(date, '-')[2]).value
  }

  /** Rule 6: six points if the day is odd (Go's `day%2 == 1`). */
  function OddDayPoints(date: string): (n: nat)
    requires |Split(date, '-')| > 2
    ensures n == 6 || n == 0
    ensures n == 6 <==> DayOf(date) > 0 && DayOf(date) % 2 == 1
  {
    GoRemOdd(DayOf(date));
    if GoRem(DayOf(date), 2) == 1 then 6 else 0
  }

  /**
   * How a day that does not parse cleanly is scored: a syntax error reads as
   * day 0 and gives no bonus; a day out of the 64-bit range reads as the
   * nearest bound, and the upper bound is odd, so it gets the bonus.
   */
  lemma OddDayPointsOnError(date: string)
    requires |Split(date, '-')| > 2
    ensures ParseInt(Split(date, '-')[2]).err == ErrSyntax ==> OddDayPoints(date) == 0
    ensures ParseInt(Split(date, '-')[2]).err == ErrRange ==>
              (OddDayPoints(date) == 6 <==> DayOf(date) == MaxInt64)
  {
  }

  /** A day written with more digits than fit in 64 bits, such as "99999999999999999999", earns 6 points. */
  lemma OverlargeDayEarns6(date: string)
    requires |Split(date, '-')| > 2
    requires AllDigits(Split(date, '-')[2]) && Split(date, '-')[2] != []
    requires DigitsValue(Split(date, '-')[2]) > MaxInt64
    ensures OddDayPoints(date) == 6
  {
    var day := Split(date, '-')[2];
    ParseIntDigits("", day);
    assert "" + day == day;
    assert DayOf(date) == MaxInt64;
  }

  /** The text before the first `:` of the purchase time, parsed; 0 if it does not parse. */
  function HourOf(time: string): (hour: int)
    ensures MinInt64 <= hour <= MaxInt64
    ensures ParseInt(Split(time, ':')[0]).err == ErrSyntax ==> hour == 0
  {
    ParseInt(Split(time, ':')[0]).value
  }

  /** Rule 7: ten points for a purchase hour from 14 up to but excluding 16. */
  function AfternoonPoints(time: string): (n: nat)
    ensures n == 10 || n == 0
  {
    if 14 <= HourOf(time) < 16 then 10 else 0
  }

  /** The hour bonus applies exactly when the leading field parses to 14 or 15. */
  lemma AfternoonPointsIff(time: string)
    ensures AfternoonPoints(time) == 10 <==>
              ParseInt(time[..IndexOf(time, ':')]).value in {14, 15}
    ensures ParseInt(time[..IndexOf(time, ':')]).err == ErrSyntax ==> AfternoonPoints(time) == 0
  {
    SplitFirst(time, ':');
  }

  /**
   * The score of a receipt: the sum of the seven rules. It fails when the
   * purchase date has fewer than three `-`-separated fields.
   */
  function Score(r: Receipt): Result<int, ScoreError>
  {
    var dateFields := Split(r.purchaseDate, '-');
    if |dateFields| <= 2 then Err(IndexOutOfRange(2, |dateFields|))
    else
      Ok(RetailerPoints(r.retailer) + RoundDollarPoints(r.total) + QuarterPoints(r.total) +
         PairPoints(|r.items|) + DescriptionPoints(r.items, |r.items|) +
         OddDayPoints(r.purchaseDate) + AfternoonPoints(r.purchaseTime))
  }

  /** Adding the rules up in three stages gives the score. */
  lemma ScoreInStages(r: Receipt, totals: int, items: int, points: int)
    requires |Split(r.purchaseDate, '-')| > 2
    requires totals == RetailerPoints(r.retailer) + RoundDollarPoints(r.total) + QuarterPoints(r.total)
    requires items == totals + PairPoints(|r.items|) + DescriptionPoints(r.items, |r.items|)
    requires points == items + OddDayPoints(r.purchaseDate) + AfternoonPoints(r.purchaseTime)
    ensures Score(r).Ok? && Score(r).value == points
  {
  }

  /** Scoring fails exactly when the purchase date holds fewer than two `-`. */
  lemma ScoreFailsIff(r: Receipt)
    ensures Score(r).Err? <==> multiset(r.purchaseDate)['-'] < 2
  {
    SplitCount(r.purchaseDate, '-');
  }

  /** With no negative price, a score is never negative. */
  lemma ScoreNonNegative(r: Receipt)
    requires forall item :: item in r.items ==> PriceOf(item).mantissa >= 0
    ensures Score(r).Ok? ==> Score(r).value >= 0
  {
    DescriptionPointsNonNegative(r.items, |r.items|);
  }

  /**
   * The loop of `calculatePoints` over the items for rule 5: it adds the
   * points of every item whose trimmed description is a multiple of three
   * bytes long.
   */
  method ItemRuleLoop(items: seq<Item>) returns (points: int)
    ensures points == DescriptionPoints(items, |items|)
  {
    points := 0;
    for i := 0 to |items|
      invariant points == DescriptionPoints(items, i)
    {
      DescriptionPointsStep(items, i);
      var item := items[i];
      if ByteLen(TrimSpace(item.shortDescription)) % 3 == 0 {
        var price := ParseFloat(TrimSpace(item.price)).value;
        points := points + CeilFifth(price);
      }
    }
  }

  /**
   * `calculatePoints`: accumulates the points rule by rule, with one loop over
   * the items for the pairs and one for the descriptions.
   */
  method CalculatePoints(r: Receipt) returns (res: Result<int, ScoreError>)
    ensures res == Score(r)
  {
    var points := 0;
    var totalAmt := ParseFloat(TrimSpace(r.total)).value;
    points := points + ByteLen(RemoveNonAlphaNum(r.retailer));
    if IsWhole(totalAmt) {
      points := points + 50;
    }
    if IsQuarterMultiple(totalAmt) {
      points := points + 25;
    }
    assert points == RetailerPoints(r.retailer) + RoundDollarPoints(r.total) + QuarterPoints(r.total);
    var items := r.items;
    ghost var afterTotal := points;
    for i := 0 to |items|
      invariant points == afterTotal + PairPoints(i)
    {
      PairPointsStep(i);
      if (i + 1) % 2 == 0 {
        points := points + 5;
      }
    }
    var itemPoints := ItemRuleLoop(items);
    points := points + itemPoints;
    assert points == afterTotal + PairPoints(|r.items|) + DescriptionPoints(r.items, |r.items|);
    var dateFields := Split(r.purchaseDate, '-');
    if |dateFields| <= 2 {
      assert Score(r).Err? && Score(r).error == IndexOutOfRange(2, |dateFields|);
      return Err(IndexOutOfRange(2, |dateFields|));
    }
    ghost var afterItems := points;
    var day := ParseInt(dateFields[2]).value;
    if GoRem(day, 2) == 1 {
      points := points + 6;
    }
    var hour := ParseInt(Split(r.purchaseTime, ':')[0]).value;
    if hour >= 14 && hour < 16 {
      points := points + 10;
    }
    assert points == afterItems + OddDayPoints(r.purchaseDate) + AfternoonPoints(r.purchaseTime);
    ScoreInStages(r, afterTotal, afterItems, points);
    assert Score(r).Ok? && Score(r).value == points;
    return Ok(points);
  }

  /** The receipt the service starts with, stored under the id "example". */
  function ExampleReceipt(): Receipt
  {
    var gatorade := Item("Gatorade", "2.25");
    Receipt("M&M Corner Market", "2022-03-20", "14:33",
            [gatorade, gatorade, gatorade, gatorade], "9.00")
  }

  /** The example scores 14 + 50 + 25 + 10 + 0 + 0 + 10 = 109. */
  lemma ExampleScore()
    ensures Score(ExampleReceipt()) == Ok(109)
  {
    var r := ExampleReceipt();
    ExampleRetailer();
    ExampleTotal();
    ExamplePairs();
    ExampleItems();
    ExampleDateAndTime();
    ScoreInStages(r, 14 + 75, 14 + 75 + 10 + 0, 109);
  }

  /** "M&M Corner Market" has 14 alphanumeric characters. */
  lemma ExampleRetailer()
    ensures RetailerPoints(ExampleReceipt().retailer) == 14
  {
    assert "M&M Corner Market" == "M&M" + " Corner Market";
    RetailerPointsConcat("M&M", " Corner Market");
    ExampleRetailerHead();
    ExampleRetailerTail();
  }

  lemma ExampleRetailerHead()
    ensures RetailerPoints("M&M") == 2
  {
    assert RemoveNonAlphaNum("M&M") == "MM";
  }

  lemma ExampleRetailerTail()
    ensures RetailerPoints(" Corner Market") == 12
  {
    assert " Corner Market" == " Corner" + " Market";
    RetailerPointsConcat(" Corner", " Market");
    ExampleRetailerCorner();
    ExampleRetailerMarket();
  }

  lemma ExampleRetailerCorner()
    ensures RetailerPoints(" Corner") == 6
  {
    assert RemoveNonAlphaNum(" Corner") == "Corner";
  }

  lemma ExampleRetailerMarket()
    ensures RetailerPoints(" Market") == 6
  {
    assert RemoveNonAlphaNum(" Market") == "Market";
  }

  /** "9.00" is a round amount, so it earns both total rules. */
  lemma ExampleTotal()
    ensures RoundDollarPoints(ExampleReceipt().total) + QuarterPoints(ExampleReceipt().total) == 75
  {
    CentsTotalPoints("9.00", 9, 0);
  }

  /** An item whose trimmed description is not a multiple of three bytes long earns nothing. */
  lemma UnqualifiedItemEarnsNothing(item: Item)
    requires ByteLen(TrimSpace(item.shortDescription)) % 3 != 0
    ensures ItemPoints(item) == 0
  {
  }

  /** Copies of one item that earns nothing earn nothing together. */
  lemma {:induction false} CopiesEarnNothing(items: seq<Item>, item: Item, n: nat)
    requires n <= |items|
    requires forall i :: 0 <= i < |items| ==> items[i] == item
    requires ItemPoints(item) == 0
    ensures DescriptionPoints(items, n) == 0
  {
    if n > 0 {
      CopiesEarnNothing(items, item, n - 1);
    }
  }

  /** "Gatorade" is 8 bytes long once trimmed, which is not a multiple of three. */
  lemma GatoradeUnqualified()
    ensures ByteLen(TrimSpace("Gatorade")) % 3 != 0
  {
    TrimSpaceOfPadded("", "Gatorade", "");
    assert "" + "Gatorade" + "" == "Gatorade";
    AsciiByteLen("Gatorade");
  }

  /** Four items are two pairs. */
  lemma ExamplePairs()
    ensures PairPoints(|ExampleReceipt().items|) == 10
  {
  }

  /** The example's item, a Gatorade at 2.25, earns no description points. */
  lemma GatoradeEarnsNothing()
    ensures ItemPoints(Item("Gatorade", "2.25")) == 0
  {
    GatoradeUnqualified();
    UnqualifiedItemEarnsNothing(Item("Gatorade", "2.25"));
  }

  /** No example item earns description points. */
  lemma ExampleItems()
    ensures DescriptionPoints(ExampleReceipt().items, 4) == 0
  {
    GatoradeEarnsNothing();
    FourCopiesEarnNothing(Item("Gatorade", "2.25"));
  }

  lemma FourCopiesEarnNothing(item: Item)
    requires ItemPoints(item) == 0
    ensures DescriptionPoints([item, item, item, item], 4) == 0
  {
    CopiesEarnNothing([item, item, item, item], item, 4);
  }

  /** The example's date has three fields. */
  lemma ExampleDateFields()
    ensures Split("2022-03-20", '-') == ["2022", "03", "20"]
  {
    assert "2022-03-20" == "2022" + ['-'] + "03-20";
    SplitAtFirst("2022", '-', "03-20");
    ExampleDateTail();
  }

  lemma ExampleDateTail()
    ensures Split("03-20", '-') == ["03", "20"]
  {
    assert "03-20" == "03" + ['-'] + "20";
    SplitAtFirst("03", '-', "20");
    SplitWhole("20", '-');
  }

  /** The example's time has two fields. */
  lemma ExampleTimeFields()
    ensures Split("14:33", ':') == ["14", "33"]
  {
    assert "14:33" == "14" + [':'] + "33";
    SplitAtFirst("14", ':', "33");
    SplitWhole("33", ':');
  }

  /** The day field reads as 20 and the hour field as 14. */
  lemma ExampleNumbers()
    ensures ParseInt("20").value == 20
    ensures ParseInt("14").value == 14
  {
    ParseIntDigits("", "20");
    assert "" + "20" == "20";
    ParseIntDigits("", "14");
    assert "" + "14" == "14";
  }

  /** The 20th is an even day; 14:33 is in the afternoon window. */
  lemma ExampleDateAndTime()
    ensures |Split(ExampleReceipt().purchaseDate, '-')| == 3
    ensures OddDayPoints(ExampleReceipt().purchaseDate) == 0
    ensures AfternoonPoints(ExampleReceipt().purchaseTime) == 10
  {
    ExampleDateFields();
    ExampleTimeFields();
    ExampleNumbers();
  }
}
