/** `main` of the spread watchdog: list the open orders, take the spread
    between the best kept bid and the best kept ask, persist a note about
    the book, and run the remediation ladder when the book is crossed or the
    spread reaches the threshold. */
module SpreadMonitor {
  import opened Wrappers
  import opened Commands
  import opened StateStore
  import opened Remediation
  import opened OrderBook

  /** What the environment of one run provides: whether the event logger could
      be set up, how the list command ends, whether the state write succeeds,
      and how the two remediation commands end. */
  datatype SpreadRunInputs = SpreadRunInputs(
    loggerReady: bool, list: Outcome, writeOk: bool, kill: Outcome, cancel: Outcome)

  /** The list command's (stripped) output. */
  function Listing(list: Outcome): string {
    Run(ListOrders, list).out
  }

  /** The orders a listing shows. */
  function ListedOrders(listing: string): seq<Order> {
    ParseLines(SplitLines(listing))
  }

  /** The spread between the highest kept bid and the lowest kept ask. */
  function Spread(orders: seq<Order>, minAmount: real): Option<real> {
    SpreadPercentMid(BestPrice(orders, minAmount, "BUY", true), BestPrice(orders, minAmount, "SELL", false))
  }

  /** The trigger: there is a spread, and it is negative (a crossed book) or
      at least the threshold. */
  predicate Breached(spread: Option<real>, threshold: real) {
    spread.Some? && (spread.value < 0.0 || spread.value >= threshold)
  }

  /** The note a run persists: the book summary when there is a spread,
      otherwise that the book is too thin. */
  function Note(orders: seq<Order>, minAmount: real, threshold: real): (note: SpreadNote)
    ensures note.InsufficientBookDepth? <==> Spread(orders, minAmount).None?
  {
    var bids := Sort(KeptPrices(orders, minAmount, "BUY"), true);
    var asks := Sort(KeptPrices(orders, minAmount, "SELL"), false);
    match Spread(orders, minAmount)
    case None => InsufficientBookDepth
    case Some(spread) => BookSummary(bids[0], asks[0], spread, threshold, |bids|, |asks|)
  }

  /** A book with no kept bid or no kept ask has no spread, so it never
      triggers the ladder, whatever the threshold. */
  lemma OneSidedBookNeverTriggers(orders: seq<Order>, minAmount: real, threshold: real)
    requires || (forall k :: 0 <= k < |orders| ==> !Kept(orders[k], minAmount, "BUY"))
             || (forall k :: 0 <= k < |orders| ==> !Kept(orders[k], minAmount, "SELL"))
    ensures Spread(orders, minAmount).None?
    ensures !Breached(Spread(orders, minAmount), threshold)
  {
    BestPriceIsExtreme(orders, minAmount, "BUY", true);
    BestPriceIsExtreme(orders, minAmount, "SELL", false);
  }

  /** A crossed book, where some kept ask is below some kept bid, triggers
      the ladder whatever the threshold, provided every kept ask is priced
      above zero. */
  lemma CrossedBookTriggers(orders: seq<Order>, minAmount: real, threshold: real, bid: nat, ask: nat)
    requires forall k :: 0 <= k < |orders| && Kept(orders[k], minAmount, "SELL") ==> orders[k].price > 0.0
    requires bid < |orders| && Kept(orders[bid], minAmount, "BUY")
    requires ask < |orders| && Kept(orders[ask], minAmount, "SELL")
    requires orders[ask].price < orders[bid].price
    ensures Breached(Spread(orders, minAmount), threshold)
  {
    BestPriceIsExtreme(orders, minAmount, "BUY", true);
    BestPriceIsExtreme(orders, minAmount, "SELL", false);
    var best := BestPrice(orders, minAmount, "BUY", true);
    var lowest := BestPrice(orders, minAmount, "SELL", false);
    assert best.Some? && best.value >= orders[bid].price;
    assert lowest.Some? && lowest.value <= orders[ask].price;
    assert PriceOfKept(orders, minAmount, "SELL", lowest.value);
    var k :| 0 <= k < |orders| && Kept(orders[k], minAmount, "SELL") && orders[k].price == lowest.value;
    assert lowest.value > 0.0;
    assert best.value > 0.0;
  }

  /** Whether a listing triggers the ladder. */
  predicate Breaching(minOrderAmount: real, threshold: real, listing: string) {
    Breached(Spread(ListedOrders(listing), minOrderAmount), threshold)
  }

  /** Lines 75 to 89 of `main`: parse the listing, split and sort the kept
      prices, take the spread and decide whether it is breached. */
  method AssessBook(listing: string, minOrderAmount: real, threshold: real)
    returns (spread: Option<real>, matched: bool, note: SpreadNote)
    ensures spread == Spread(ListedOrders(listing), minOrderAmount)
    ensures matched == Breaching(minOrderAmount, threshold, listing)
    ensures note == Note(ListedOrders(listing), minOrderAmount, threshold)
  {
    var orders := ParseOrdersFromText(listing);
    var buys, sells := SplitFilterSortOrders(orders, minOrderAmount);
    var bestBid := if buys != [] then Some(buys[0]) else None;
    var bestAsk := if sells != [] then Some(sells[0]) else None;
    assert bestBid == BestPrice(orders, minOrderAmount, "BUY", true);
    assert bestAsk == BestPrice(orders, minOrderAmount, "SELL", false);
    spread := SpreadPercentMid(bestBid, bestAsk);
    matched := spread.Some? && (spread.value < 0.0 || spread.value >= threshold);
    note := if spread.Some? then BookSummary(bestBid.value, bestAsk.value, spread.value, threshold, |buys|, |sells|)
            else InsufficientBookDepth;
  }

  /** `main`: returns 1 when the run cannot start or the list command fails,
      0 when the spread is fine or every remediation step succeeded, and 2
      when a remediation step failed. The note is written before any
      remediation, a failed write does not stop the run, and the ladder runs
      exactly when the spread is breached. */
  method RunSpreadMonitor(minOrderAmount: real, threshold: real, inputs: SpreadRunInputs)
    returns (status: int, effects: seq<Effect>, events: seq<Event>)
    ensures status == 0 || status == 1 || status == 2
    ensures status == 1 <==> !inputs.loggerReady || !Succeeded(inputs.list)
    ensures status == 0 <==> (status != 1 &&
      (!Breaching(minOrderAmount, threshold, Listing(inputs.list)) || (Succeeded(inputs.kill) && Succeeded(inputs.cancel))))
    ensures status == 1 ==> effects == []
    ensures status != 1 ==>
      effects == [WriteState(SpreadRecord(Note(ListedOrders(Listing(inputs.list)), minOrderAmount, threshold)), inputs.writeOk)]
                 + (if Breaching(minOrderAmount, threshold, Listing(inputs.list))
                    then LadderEffects(inputs.kill, inputs.cancel) else [])
    ensures CancelOnlyAfterKill(effects)
    ensures PersistBeforeRemediation(effects)
    ensures !inputs.loggerReady ==> events == []
    ensures inputs.loggerReady && !Succeeded(inputs.list) ==> events == [RunStart, ListOrdersFailed]
    ensures status != 1 ==>
      events == [RunStart] + ((if inputs.writeOk then [] else [StateWriteFailed])
                + (if Breaching(minOrderAmount, threshold, Listing(inputs.list))
                   then [SpreadThresholdBreached] + LadderEvents(inputs.kill, inputs.cancel)
                   else [SpreadOk]))
  {
    if !inputs.loggerReady {
      return 1, [], [];
    }
    var listed := Run(ListOrders, inputs.list);
    assert listed.out == Listing(inputs.list);
    if listed.rc != 0 {
      return 1, [], [RunStart, ListOrdersFailed];
    }
    var spread, matched, note := AssessBook(listed.out, minOrderAmount, threshold);
    var tailEvents;
    status, effects, tailEvents := PersistAndRespond(SpreadRecord(note), inputs.writeOk, matched,
                                                     SpreadOk, SpreadThresholdBreached, inputs.kill, inputs.cancel);
    events := [RunStart] + tailEvents;
  }
}
