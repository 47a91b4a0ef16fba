/** Order creation in the car-rental servlet (`OrderServlet.createOrder`):
    the pickup and return times, the rental days, and the amounts, which
    are `BigDecimal`s and therefore exact. A decimal is an unscaled integer
    and a scale, as in `java.math.BigDecimal`; its value is a `real`. The
    ISO date parser, the decimal parser, the vehicle lookups and the
    insert are inputs; times are nanoseconds on the local time line.
 */
module Orders {
  import opened Wrappers
  import opened Text

  // ---------------------------------------------------------------------
  // Exact decimals

  datatype Decimal = Decimal(unscaled: int, scale: nat)

  function Pow10(n: nat): (p: nat)
    ensures p >= 1
  {
    if n == 0 then 1 else 10 * Pow10(n - 1)
  }

  lemma {:induction false} Pow10Add(a: nat, b: nat)
    ensures Pow10(a + b) == Pow10(a) * Pow10(b)
    decreases a
  {
    if a > 0 {
      Pow10Add(a - 1, b);
    }
  }

  /** The number a decimal stands for, one place at a time. */
  function ValueOf(d: Decimal): real
    decreases d.scale
  {
    if d.scale == 0 then d.unscaled as real else ValueOf(Decimal(d.unscaled, d.scale - 1)) / 10.0
  }

  /** The value is unscaled / 10^scale. */
  lemma {:induction false} ValueIsRatio(d: Decimal)
    ensures ValueOf(d) == d.unscaled as real / Pow10(d.scale) as real
    decreases d.scale
  {
    if d.scale > 0 {
      ValueIsRatio(Decimal(d.unscaled, d.scale - 1));
      var p := Pow10(d.scale - 1) as real;
      assert Pow10(d.scale) as real == 10.0 * p;
      DivTen(d.unscaled as real, p);
    }
  }

  lemma DivTen(u: real, p: real)
    requires p > 0.0
    ensures (u / p) / 10.0 == u / (10.0 * p)
  {
  }

  const Zero: Decimal := Decimal(0, 0)

  /** The same number written with a larger scale. */
  function Rescale(d: Decimal, s: nat): (r: Decimal)
    requires s >= d.scale
    ensures r.scale == s && ValueOf(r) == ValueOf(d)
  {
    var k := Pow10(s - d.scale);
    Pow10Add(s - d.scale, d.scale);
    var r := Decimal(d.unscaled * k, s);
    ScaleUp(d.unscaled, k, Pow10(d.scale));
    ValueIsRatio(d);
    ValueIsRatio(r);
    r
  }

  lemma ScaleUp(u: int, k: nat, p: nat)
    requires k >= 1 && p >= 1
    ensures (u * k) as real / (k * p) as real == u as real / p as real
  {
    var kr := k as real;
    var pr := p as real;
    assert (u * k) as real == u as real * kr;
    assert (k * p) as real == kr * pr;
    assert (u as real * kr) / (kr * pr) == u as real / pr;
  }

  function Max(a: nat, b: nat): nat
  {
    if a >= b then a else b
  }

  /** `BigDecimal.add`: the exact sum, at the larger of the two scales. */
  function Add(a: Decimal, b: Decimal): (r: Decimal)
    ensures r.scale == Max(a.scale, b.scale)
    ensures ValueOf(r) == ValueOf(a) + ValueOf(b)
  {
    var s := Max(a.scale, b.scale);
    var x := Rescale(a, s);
    var y := Rescale(b, s);
    SumAt(x.unscaled, y.unscaled, s);
    Decimal(x.unscaled + y.unscaled, s)
  }

  /** `BigDecimal.subtract`: the exact difference, at the larger scale. */
  function Subtract(a: Decimal, b: Decimal): (r: Decimal)
    ensures r.scale == Max(a.scale, b.scale)
    ensures ValueOf(r) == ValueOf(a) - ValueOf(b)
  {
    var s := Max(a.scale, b.scale);
    var x := Rescale(a, s);
    var y := Rescale(b, s);
    SumAt(x.unscaled, -y.unscaled, s);
    NegateAt(y.unscaled, s);
    Decimal(x.unscaled - y.unscaled, s)
  }

  /** At one scale, unscaled values add as their values do. */
  lemma SumAt(x: int, y: int, s: nat)
    ensures ValueOf(Decimal(x + y, s)) == ValueOf(Decimal(x, s)) + ValueOf(Decimal(y, s))
  {
    SumOver(x, y, Pow10(s));
    ValueIsRatio(Decimal(x, s));
    ValueIsRatio(Decimal(y, s));
    ValueIsRatio(Decimal(x + y, s));
  }

  lemma NegateAt(y: int, s: nat)
    ensures ValueOf(Decimal(-y, s)) == -ValueOf(Decimal(y, s))
  {
    SumOver(y, -y, Pow10(s));
    ValueIsRatio(Decimal(y, s));
    ValueIsRatio(Decimal(-y, s));
  }

  lemma SumOver(x: int, y: int, p: nat)
    requires p >= 1
    ensures (x + y) as real / p as real == x as real / p as real + y as real / p as real
  {
  }

  /** `BigDecimal.multiply`: the exact product, scales added. */
  function Multiply(a: Decimal, b: Decimal): (r: Decimal)
    ensures r.scale == a.scale + b.scale
    ensures ValueOf(r) == ValueOf(a) * ValueOf(b)
  {
    MultiplyValue(a, b);
    Decimal(a.unscaled * b.unscaled, a.scale + b.scale)
  }

  lemma MultiplyValue(a: Decimal, b: Decimal)
    ensures ValueOf(Decimal(a.unscaled * b.unscaled, a.scale + b.scale)) == ValueOf(a) * ValueOf(b)
  {
    var pa := Pow10(a.scale);
    var pb := Pow10(b.scale);
    Pow10Add(a.scale, b.scale);
    ProductOver(a.unscaled, b.unscaled, pa, pb);
    ValueIsRatio(a);
    ValueIsRatio(b);
    ValueIsRatio(Decimal(a.unscaled * b.unscaled, a.scale + b.scale));
  }

  lemma ProductOver(x: int, y: int, p: nat, q: nat)
    requires p >= 1 && q >= 1
    ensures (x * y) as real / (p * q) as real == (x as real / p as real) * (y as real / q as real)
  {
    assert (x * y) as real == x as real * y as real;
    assert (p * q) as real == p as real * q as real;
  }

  /** `x` added up `n` times. */
  function Times(x: real, n: nat): real
  {
    if n == 0 then 0.0 else Times(x, n - 1) + x
  }

  lemma {:induction false} TimesIsProduct(x: real, n: nat)
    ensures Times(x, n) == x * n as real
  {
    if n > 0 {
      TimesIsProduct(x, n - 1);
    }
  }

  /** Decimal sums are exact: two decimals at one scale add by adding
      their unscaled integers, so 0.1 + 0.2 is 3 at scale one, which is
      0.3. */
  lemma SumIsExact(x: int, y: int, s: nat)
    ensures Add(Decimal(x, s), Decimal(y, s)) == Decimal(x + y, s)
    ensures ValueOf(Decimal(3, 1)) == 0.3
  {
    assert Pow10(0) == 1;
    assert ValueOf(Decimal(3, 0)) == 3.0;
  }

  /** A price times a whole number of days. */
  lemma PriceTimesDays(rate: Decimal, days: nat)
    ensures ValueOf(Multiply(rate, OfInt(days))) == Times(ValueOf(rate), days)
  {
    TimesIsProduct(ValueOf(rate), days);
  }

  /** `BigDecimal.valueOf(long)`. */
  function OfInt(n: int): (r: Decimal)
    ensures ValueOf(r) == n as real && r.scale == 0
  {
    Decimal(n, 0)
  }

  // ---------------------------------------------------------------------
  // Creating an order

  /** One nanosecond-resolution day. */
  const DAY: int := 86_400_000_000_000

  /** A fee in the request: absent (the default "0"), JSON null (whose
      `toString` throws), or text for the decimal parser. */
  datatype Fee = Absent | Null | Given(text: string)

  /** What one vehicle lookup answers: no row (it throws "Vehicle not
      found"), the column's value (`None` for SQL NULL), or any other
      exception, with its message. A missing or non-numeric vehicle id,
      which throws before the first lookup, is a failure of that lookup. */
  datatype Column = NoVehicle | Value(v: Option<Decimal>) | LookupFailed(message: string)

  /** What `createOrder` reads: the parsed pickup and return times (`None`
      when the ISO parser rejects the text or it is missing), the answers
      of the daily-price and the deposit lookups, the four fee fields, and
      the insert's generated id (0 when none comes back) or the exception
      of the insert or of reading its parameters. */
  datatype Request = Request(pickupAt: Option<int>, returnAt: Option<int>,
                             dailyRate: Column, deposit: Column,
                             serviceFee: Fee, insuranceFee: Fee, addonFee: Fee, discount: Fee,
                             inserted: Outcome<int>)

  /** The inserted row; a NULL deposit is stored and echoed as null. */
  datatype Order = Order(id: int, orderNo: string, days: int, dailyRate: Decimal, rentalAmount: Decimal,
                         serviceFee: Decimal, insuranceFee: Decimal, addonFee: Decimal,
                         discountAmount: Decimal, totalAmount: Decimal, depositAmount: Option<Decimal>,
                         orderStatus: string, paymentStatus: string, depositStatus: string)

  datatype OrderError =
    | InvalidDate
    | NotAfterPickup
    | VehicleNotFound
    | LookupError(message: string)
    | NullValue
    | BadNumber(message: string)
    | InsertFailed(message: string)

  datatype Created = Placed(order: Order) | Refused(error: OrderError)

  /** A step that yields a value or stops the request with an error. */
  datatype Checked<T> = Passed(value: T) | Stopped(error: OrderError)

  /** The error message the servlet answers with (status 500); the text of
      a `NullPointerException` is the runtime's own and is left open. */
  function Message(e: OrderError): (m: Option<string>)
    ensures m.None? <==> e == NullValue
  {
    match e
    case InvalidDate => Some("Invalid date format. Use ISO-8601 format (e.g., 2024-01-01T10:00:00)")
    case NotAfterPickup => Some("Return time must be after pickup time")
    case VehicleNotFound => Some("Vehicle not found")
    case LookupError(m) => Some(m)
    case NullValue => None
    case BadNumber(m) => Some(m)
    case InsertFailed(m) => Some(m)
  }

  /** `Duration.between(pickup, return).toDays()`, with 0 promoted to 1. */
  function RentalDays(pickup: int, ret: int): (days: int)
    requires pickup < ret
    ensures days >= 1
  {
    var d := (ret - pickup) / DAY;
    if d == 0 then 1 else d
  }

  /** The rental days bracket the duration: whole days, rounded down, and
      a rental shorter than a day is charged as one. */
  lemma DaysBracket(pickup: int, ret: int)
    requires pickup < ret
    ensures var days := RentalDays(pickup, ret);
            if ret - pickup < DAY then days == 1
            else days * DAY <= ret - pickup < (days + 1) * DAY
  {
  }

  /** `new BigDecimal(data.getOrDefault(name, "0").toString())`. */
  function FeeValue(f: Fee, parse: string -> Outcome<Decimal>): (r: Checked<Decimal>)
    ensures f.Absent? ==> r == Passed(Zero)
    ensures f.Null? ==> r == Stopped(NullValue)
    ensures f.Given? && parse(f.text).Ok? ==> r == Passed(parse(f.text).v)
    ensures f.Given? && parse(f.text).Exn? ==> r == Stopped(BadNumber(parse(f.text).msg))
  {
    match f
    case Absent => Passed(Zero)
    case Null => Stopped(NullValue)
    case Given(text) =>
      match parse(text)
      case Ok(d) => Passed(d)
      case Exn(m) => Stopped(BadNumber(m))
  }

  /** The four fees, in the order they are parsed; the first failure wins. */
  function Fees(q: Request, parse: string -> Outcome<Decimal>): (r: Checked<seq<Decimal>>)
    ensures r.Passed? <==> FeeValue(q.serviceFee, parse).Passed? && FeeValue(q.insuranceFee, parse).Passed?
                           && FeeValue(q.addonFee, parse).Passed? && FeeValue(q.discount, parse).Passed?
    ensures r.Stopped? ==> r == FirstStop([FeeValue(q.serviceFee, parse), FeeValue(q.insuranceFee, parse),
                                           FeeValue(q.addonFee, parse), FeeValue(q.discount, parse)])
    ensures r.Passed? ==> |r.value| == 4 && ValueOf(r.value[0]) == FeeReal(q.serviceFee, parse)
                          && ValueOf(r.value[1]) == FeeReal(q.insuranceFee, parse)
                          && ValueOf(r.value[2]) == FeeReal(q.addonFee, parse)
                          && ValueOf(r.value[3]) == FeeReal(q.discount, parse)
  {
    var s := FeeValue(q.serviceFee, parse);
    var i := FeeValue(q.insuranceFee, parse);
    var a := FeeValue(q.addonFee, parse);
    var d := FeeValue(q.discount, parse);
    assert [s, i, a, d][1..] == [i, a, d] && [i, a, d][1..] == [a, d] && [a, d][1..] == [d];
    if s.Stopped? then Stopped(s.error)
    else
      assert FirstStop([s, i, a, d]) == FirstStop([i, a, d]);
      if i.Stopped? then Stopped(i.error)
      else
        assert FirstStop([i, a, d]) == FirstStop([a, d]);
        if a.Stopped? then Stopped(a.error)
        else
          assert FirstStop([a, d]) == FirstStop([d]);
          if d.Stopped? then Stopped(d.error)
          else Passed([s.value, i.value, a.value, d.value])
  }

  /** The first stopped step of a sequence, read from the left. */
  function FirstStop(steps: seq<Checked<Decimal>>): Checked<seq<Decimal>>
  {
    if steps == [] then Passed([])
    else if steps[0].Stopped? then Stopped(steps[0].error)
    else FirstStop(steps[1..])
  }

  predicate TimesValid(q: Request)
  {
    q.pickupAt.Some? && q.returnAt.Some? && q.pickupAt.value < q.returnAt.value
  }

  /** Both lookups answered with a row. */
  predicate Found(q: Request)
  {
    q.dailyRate.Value? && q.deposit.Value?
  }

  /** `createOrder` at clock `now` (milliseconds), followed by the reply:
      the dates, then the price lookup, then the deposit lookup, then the
      rental amount (a NULL price throws there), then the fees, then the
      insert. */
  function CreateOrder(q: Request, now: int, parse: string -> Outcome<Decimal>): (r: Created)
    ensures r.Refused? && r.error == InvalidDate <==> q.pickupAt.None? || q.returnAt.None?
    ensures r.Refused? && r.error == NotAfterPickup <==>
              q.pickupAt.Some? && q.returnAt.Some? && q.returnAt.value <= q.pickupAt.value
    ensures r.Refused? && r.error == VehicleNotFound <==>
              TimesValid(q) && (q.dailyRate.NoVehicle? || (q.dailyRate.Value? && q.deposit.NoVehicle?))
    ensures r.Refused? && r.error.LookupError? <==>
              TimesValid(q) && (q.dailyRate.LookupFailed? || (q.dailyRate.Value? && q.deposit.LookupFailed?))
    ensures r.Refused? && r.error.LookupError? ==>
              r.error.message == (if q.dailyRate.LookupFailed? then q.dailyRate.message else q.deposit.message)
    ensures r.Refused? && r.error == NullValue <==>
              TimesValid(q) && Found(q) && (q.dailyRate.v.None? || Fees(q, parse) == Stopped(NullValue))
    ensures r.Refused? && r.error.BadNumber? <==>
              TimesValid(q) && Found(q) && q.dailyRate.v.Some? && Fees(q, parse).Stopped?
              && Fees(q, parse).error.BadNumber?
    ensures r.Refused? && (r.error == NullValue || r.error.BadNumber?) && q.dailyRate.Value? && q.dailyRate.v.Some?
            ==> Fees(q, parse) == Stopped(r.error)
    ensures r.Refused? && r.error.InsertFailed? <==>
              TimesValid(q) && Found(q) && q.dailyRate.v.Some? && Fees(q, parse).Passed? && q.inserted.Exn?
    ensures r.Refused? && r.error.InsertFailed? ==> r.error.message == q.inserted.msg
    ensures r.Placed? <==>
              TimesValid(q) && Found(q) && q.dailyRate.v.Some? && Fees(q, parse).Passed? && q.inserted.Ok?
    ensures r.Placed? ==> PlacedAsPriced(q, now, parse, r.order)
  {
    if q.pickupAt.None? || q.returnAt.None? then Refused(InvalidDate)
    else if q.returnAt.value <= q.pickupAt.value then Refused(NotAfterPickup)
    else if q.dailyRate.NoVehicle? then Refused(VehicleNotFound)
    else if q.dailyRate.LookupFailed? then Refused(LookupError(q.dailyRate.message))
    else if q.deposit.NoVehicle? then Refused(VehicleNotFound)
    else if q.deposit.LookupFailed? then Refused(LookupError(q.deposit.message))
    else if q.dailyRate.v.None? then Refused(NullValue)
    else
      var fees := Fees(q, parse);
      if fees.Stopped? then Refused(fees.error)
      else if q.inserted.Exn? then Refused(InsertFailed(q.inserted.msg))
      else
        var o := NewOrder(q, now, fees.value);
        assert PlacedAsPriced(q, now, parse, o);
        Placed(o)
  }

  /** The inserted row, whose reply echoes id, number, total, deposit and
      statuses. */
  function NewOrder(q: Request, now: int, fees: seq<Decimal>): (o: Order)
    requires TimesValid(q) && Found(q) && q.dailyRate.v.Some? && q.inserted.Ok? && |fees| == 4
    ensures o.days == RentalDays(q.pickupAt.value, q.returnAt.value)
    ensures ValueOf(o.rentalAmount) == Times(ValueOf(q.dailyRate.v.value), o.days)
    ensures ValueOf(o.totalAmount) == ValueOf(o.rentalAmount) + ValueOf(fees[0]) + ValueOf(fees[1])
                                      + ValueOf(fees[2]) - ValueOf(fees[3])
    ensures o.orderStatus == "PENDING" && o.paymentStatus == "UNPAID" && o.depositStatus == "UNPAID"
    ensures o.orderNo == OrderNumber(now) && o.id == q.inserted.v && o.depositAmount == q.deposit.v
  {
    var rate := q.dailyRate.v.value;
    var days := RentalDays(q.pickupAt.value, q.returnAt.value);
    var rental := Multiply(rate, OfInt(days));
    PriceTimesDays(rate, days);
    var total := Subtract(Add(Add(Add(rental, fees[0]), fees[1]), fees[2]), fees[3]);
    Order(q.inserted.v, OrderNumber(now), days, rate, rental,
          fees[0], fees[1], fees[2], fees[3], total, q.deposit.v, "PENDING", "UNPAID", "UNPAID")
  }

  /** "ORD" and the clock's milliseconds. */
  function OrderNumber(now: int): (s: string)
    ensures StartsWith(s, "ORD")
  {
    "ORD" + IntToString(now)
  }

  /** The order number gives back the clock reading it was made from. */
  lemma OrderNumberReadsBack(now: int)
    requires InLong(now)
    ensures ParseLong(OrderNumber(now)[3..]) == Some(now)
  {
    assert OrderNumber(now)[3..] == IntToString(now);
    ParseLongRoundTrip(now);
  }

  /** A placed order's amounts: the rental is the daily rate times whole
      days (at least one), and the total is the rental plus the fees minus
      the discount, absent fees counting as zero; the order is pending and
      unpaid, numbered by the clock, with the insert's id and the deposit
      as looked up, NULL included. */
  predicate PlacedAsPriced(q: Request, now: int, parse: string -> Outcome<Decimal>, o: Order)
    requires TimesValid(q) && Found(q) && q.dailyRate.v.Some?
  {
    && o.days == RentalDays(q.pickupAt.value, q.returnAt.value)
    && ValueOf(o.rentalAmount) == Times(ValueOf(q.dailyRate.v.value), o.days)
    && ValueOf(o.totalAmount) == ValueOf(o.rentalAmount)
         + FeeReal(q.serviceFee, parse) + FeeReal(q.insuranceFee, parse)
         + FeeReal(q.addonFee, parse) - FeeReal(q.discount, parse)
    && o.orderNo == OrderNumber(now) && q.inserted.Ok? && o.id == q.inserted.v
    && o.depositAmount == q.deposit.v
    && o.orderStatus == "PENDING" && o.paymentStatus == "UNPAID" && o.depositStatus == "UNPAID"
  }

  /** A parsed fee's value, zero when absent. */
  function FeeReal(f: Fee, parse: string -> Outcome<Decimal>): real
  {
    var o := FeeValue(f, parse);
    if o.Passed? then ValueOf(o.value) else 0.0
  }

  /** A NULL daily price stops the request at the rental amount, whatever
      the fees and the insert would have done. */
  lemma NullPriceRefused(q: Request, now: int, parse: string -> Outcome<Decimal>)
    requires TimesValid(q) && Found(q) && q.dailyRate.v.None?
    ensures CreateOrder(q, now, parse) == Refused(NullValue)
  {
  }

  /** A NULL deposit does not stop the request: the order is placed with
      a null deposit. */
  lemma NullDepositPlaced(q: Request, now: int, parse: string -> Outcome<Decimal>)
    requires TimesValid(q) && q.dailyRate.Value? && q.dailyRate.v.Some? && q.deposit == Value(None)
    requires Fees(q, parse).Passed? && q.inserted.Ok?
    ensures CreateOrder(q, now, parse).Placed?
    ensures CreateOrder(q, now, parse).order.depositAmount.None?
  {
  }

  /** The total is not clamped: a discount larger than the rest gives a
      negative total. */
  lemma TotalNotClamped(parse: string -> Outcome<Decimal>)
    requires parse("500") == Ok(Decimal(500, 0))
    ensures var r := CreateOrder(DiscountHeavy(), 0, parse);
            r.Placed? && ValueOf(r.order.totalAmount) == -400.0
  {
    DiscountHeavyPlaced(parse);
    DiscountHeavyTotal(parse);
  }

  lemma DiscountHeavyPlaced(parse: string -> Outcome<Decimal>)
    requires parse("500") == Ok(Decimal(500, 0))
    ensures CreateOrder(DiscountHeavy(), 0, parse).Placed?
  {
    DiscountHeavyFees(parse);
  }

  lemma DiscountHeavyTotal(parse: string -> Outcome<Decimal>)
    requires parse("500") == Ok(Decimal(500, 0))
    ensures CreateOrder(DiscountHeavy(), 0, parse).Placed? ==>
            ValueOf(CreateOrder(DiscountHeavy(), 0, parse).order.totalAmount) == -400.0
  {
    if CreateOrder(DiscountHeavy(), 0, parse).Placed? {
      DiscountHeavyFees(parse);
      DiscountHeavyRental();
    }
  }

  /** One day at 100 with no deposit and no fees, less a discount of 500. */
  function DiscountHeavy(): (q: Request)
    ensures TimesValid(q) && q.pickupAt == Some(0) && q.returnAt == Some(DAY)
    ensures q.dailyRate == Value(Some(Decimal(100, 0))) && q.deposit.Value? && q.inserted.Ok?
    ensures q.serviceFee.Absent? && q.insuranceFee.Absent? && q.addonFee.Absent?
    ensures q.discount == Given("500")
  {
    Request(Some(0), Some(DAY), Value(Some(Decimal(100, 0))), Value(Some(Zero)),
            Absent, Absent, Absent, Given("500"), Ok(1))
  }

  lemma DiscountHeavyFees(parse: string -> Outcome<Decimal>)
    requires parse("500") == Ok(Decimal(500, 0))
    ensures Fees(DiscountHeavy(), parse).Passed?
    ensures FeeReal(Absent, parse) == 0.0 && FeeReal(Given("500"), parse) == 500.0
  {
    assert ValueOf(Decimal(500, 0)) == 500.0 && ValueOf(Zero) == 0.0;
  }

  lemma DiscountHeavyRental()
    ensures RentalDays(0, DAY) == 1
    ensures Times(ValueOf(Decimal(100, 0)), 1) == 100.0
  {
    assert ValueOf(Decimal(100, 0)) == 100.0;
  }
}
