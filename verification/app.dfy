/**
  The converter page: two amount fields (left and right currency), which
  of them the user focused last, and the quote requests that recompute the
  other field, at most one per second.

  Time is the parameter `now` (milliseconds); the quote service is the
  `Response` a request is answered with.
*/
module App {
  import opened Decimals

  /** Least time between two requests that go out, in milliseconds. */
  const MinRequestInterval: int := 1000

  /** Body of a quote request: the driving amount on its own side, null on the other. */
  datatype Payload = Payload(inAmount: Option<Decimal>, outAmount: Option<Decimal>)

  /** A request that went out: whether the left field drove it, and what it carried. */
  datatype Request = Request(isLeft: bool, payload: Payload)

  /** The quote service's answer, or a failed call. */
  datatype Response = Quote(inAmount: Decimal, outAmount: Decimal) | Failed

  /**
    The payload for `amount` typed on one side: a left-driven request asks
    how much the left amount buys, a right-driven one what the right amount
    costs. Exactly one of the two amounts is present, and it is `amount`.
  */
  function PayloadFor(amount: Decimal, isLeft: bool): (p: Payload)
    ensures p.inAmount.Some? == isLeft && p.outAmount.Some? == !isLeft
    ensures p.inAmount.Some? ==> p.inAmount.value == amount
    ensures p.outAmount.Some? ==> p.outAmount.value == amount
  {
    if isLeft then Payload(Some(amount), None) else Payload(None, Some(amount))
  }

  /** A request at `now` is dropped while the last one that went out is under a second old. */
  predicate Throttled(lastRequestTime: int, now: int) {
    now - lastRequestTime < MinRequestInterval
  }

  /** Any two of these times are at least a second apart, in order. */
  ghost predicate Spaced(times: seq<int>) {
    forall i, j :: 0 <= i < j < |times| ==> times[j] - times[i] >= MinRequestInterval
  }

  class Exchange {
    var leftValue: Decimal
    var rightValue: Decimal
    var isLeftFocused: bool
    var lastRequestTime: int
    /** The times at which requests went out, oldest first. */
    ghost var sent: seq<int>

    ghost predicate Valid()
      reads this
    {
      Spaced(sent) &&
      (sent == [] ==> lastRequestTime == 0) &&
      (sent != [] ==> lastRequestTime == sent[|sent| - 1])
    }

    /**
      The page state before its effects first run: 10000 on the left, 0 on
      the right, the right side driving, no request sent yet.
    */
    constructor ()
      ensures Valid() && sent == []
      ensures leftValue == FromInt(10000) && rightValue == FromInt(0)
      ensures !isLeftFocused && lastRequestTime == 0
    {
      leftValue, rightValue := FromInt(10000), FromInt(0);
      isLeftFocused, lastRequestTime := false, 0;
      sent := [];
    }

    /** Focusing the left field makes it the driving side. */
    method FocusLeft()
      requires Valid()
      modifies this`isLeftFocused
      ensures Valid() && isLeftFocused
    {
      isLeftFocused := true;
    }

    /** Focusing the right field makes it the driving side. */
    method FocusRight()
      requires Valid()
      modifies this`isLeftFocused
      ensures Valid() && !isLeftFocused
    {
      isLeftFocused := false;
    }

    /** The left field reports an amount. */
    method SetLeftValue(v: Decimal)
      requires Valid()
      modifies this`leftValue
      ensures Valid() && leftValue == v
    {
      leftValue := v;
    }

    /** The right field reports an amount. */
    method SetRightValue(v: Decimal)
      requires Valid()
      modifies this`rightValue
      ensures Valid() && rightValue == v
    {
      rightValue := v;
    }

    /**
      The request half of `fetchExchangeRate`: drops the request when the
      last one went out less than a second before `now`, changing nothing;
      otherwise records `now` and sends the payload for the driving side.
    */
    method FetchExchangeRate(amount: Decimal, isLeft: bool, now: int) returns (request: Option<Request>)
      requires Valid()
      modifies this`lastRequestTime, this`sent
      ensures Valid()
      ensures Throttled(old(lastRequestTime), now) ==>
        request == None && lastRequestTime == old(lastRequestTime) && sent == old(sent)
      ensures !Throttled(old(lastRequestTime), now) ==>
        request == Some(Request(isLeft, PayloadFor(amount, isLeft))) &&
        lastRequestTime == now && sent == old(sent) + [now]
    {
      if now - lastRequestTime < MinRequestInterval {
        return None;
      }
      lastRequestTime := now;
      sent := sent + [now];
      request := Some(Request(isLeft, PayloadFor(amount, isLeft)));
    }

    /**
      The response half of `fetchExchangeRate`: a quote for a left-driven
      request sets the right amount, one for a right-driven request the left
      amount; a failed call changes nothing. Which side drives now is not
      consulted.
    */
    method ApplyResponse(request: Request, response: Response)
      requires Valid()
      modifies this`leftValue, this`rightValue
      ensures Valid()
      ensures response.Failed? ==> leftValue == old(leftValue) && rightValue == old(rightValue)
      ensures response.Quote? && request.isLeft ==>
        rightValue == response.outAmount && leftValue == old(leftValue)
      ensures response.Quote? && !request.isLeft ==>
        leftValue == response.inAmount && rightValue == old(rightValue)
    {
      match response
      case Failed =>
      case Quote(inAmount, outAmount) =>
        if request.isLeft {
          rightValue := outAmount;
        } else {
          leftValue := inAmount;
        }
    }

    /** The effect on the left amount: asks for a quote of it while the left field drives. */
    method LeftEffect(now: int) returns (request: Option<Request>)
      requires Valid()
      modifies this`lastRequestTime, this`sent
      ensures Valid()
      ensures !isLeftFocused ==> request == None && unchanged(this)
      ensures isLeftFocused && Throttled(old(lastRequestTime), now) ==> request == None && unchanged(this)
      ensures isLeftFocused && !Throttled(old(lastRequestTime), now) ==>
        request == Some(Request(true, PayloadFor(leftValue, true))) &&
        lastRequestTime == now && sent == old(sent) + [now]
    {
      request := None;
      if isLeftFocused {
        request := FetchExchangeRate(leftValue, true, now);
      }
    }

    /** The effect on the right amount: asks for a quote of it while the right field drives. */
    method RightEffect(now: int) returns (request: Option<Request>)
      requires Valid()
      modifies this`lastRequestTime, this`sent
      ensures Valid()
      ensures isLeftFocused ==> request == None && unchanged(this)
      ensures !isLeftFocused && Throttled(old(lastRequestTime), now) ==> request == None && unchanged(this)
      ensures !isLeftFocused && !Throttled(old(lastRequestTime), now) ==>
        request == Some(Request(false, PayloadFor(rightValue, false))) &&
        lastRequestTime == now && sent == old(sent) + [now]
    {
      request := None;
      if !isLeftFocused {
        request := FetchExchangeRate(rightValue, false, now);
      }
    }
  }

  /**
    On a freshly opened page, two requests `gap` milliseconds apart: the
    first goes out, and the second only when `gap` is at least a second.
  */
  method TwoRequests(t0: int, gap: int, amount: Decimal) returns (first: Option<Request>, second: Option<Request>)
    requires t0 >= MinRequestInterval
    ensures first == Some(Request(false, PayloadFor(amount, false)))
    ensures second.Some? <==> gap >= MinRequestInterval
  {
    var page := new Exchange();
    first := page.FetchExchangeRate(amount, false, t0);
    second := page.FetchExchangeRate(amount, false, t0 + gap);
  }

  /**
    A quote requested while the left field drove still lands after the
    user has moved to the right field (whose own request is throttled):
    it overwrites the right amount the user is now driving.
  */
  method StaleQuoteOverwritesDrivingSide(now: int, quotedIn: Decimal, quotedOut: Decimal)
    returns (rightDrives: bool, right: Decimal, left: Decimal)
    requires now >= MinRequestInterval
    ensures rightDrives && right == quotedOut && left == FromInt(10000)
  {
    var page := new Exchange();
    page.FocusLeft();
    var request := page.LeftEffect(now);
    page.FocusRight();
    var ownRequest := page.RightEffect(now + 1);
    assert ownRequest == None;
    page.ApplyResponse(request.value, Quote(quotedIn, quotedOut));
    rightDrives, right, left := !page.isLeftFocused, page.rightValue, page.leftValue;
  }

  /**
    Opening the page: the right-side effect runs at once and asks for a
    quote of the right amount 0; its answer replaces the left amount 10000.
  */
  method MountQuotesRightZero(now: int, quotedIn: Decimal, quotedOut: Decimal)
    returns (request: Option<Request>, left: Decimal, right: Decimal)
    requires now >= MinRequestInterval
    ensures request == Some(Request(false, PayloadFor(FromInt(0), false)))
    ensures left == quotedIn && right == FromInt(0)
  {
    var page := new Exchange();
    request := page.RightEffect(now);
    page.ApplyResponse(request.value, Quote(quotedIn, quotedOut));
    left, right := page.leftValue, page.rightValue;
  }
}
