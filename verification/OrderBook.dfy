/**
 One side of a price-time priority book: its price tree read in iteration order, best price first -- a
 sequence of levels, each a FIFO queue. What an incoming order does to a side is specified on the
 flattened side, one list of resting orders in priority order, as consuming a crossing prefix.
 */
module OrderBook {
  type OrderId = int
  type Price = int
  type Qty = int

  datatype Side = Buy | Sell {
    function Opposite(): Side {
      if Buy? then Sell else Buy
    }
  }

  datatype Order = Order(id: OrderId, side: Side, price: Price, qty: Qty)
  datatype Trade = Trade(restingId: OrderId, aggressorId: OrderId, price: Price, qty: Qty)

  datatype Entry = Entry(id: OrderId, qty: Qty)
  datatype Level = Level(price: Price, queue: seq<Entry>)

  /** A resting order with the price of its level. */
  datatype Resting = Resting(id: OrderId, price: Price, qty: Qty)

  /** `p` fills before `q` on this side of the book: the higher bid, the lower ask. */
  predicate Better(side: Side, p: Price, q: Price) {
    if side.Buy? then p > q else p < q
  }

  /** An incoming order with this limit trades against a resting order of the other side at `resting`. */
  predicate Crosses(aggressor: Side, limit: Price, resting: Price) {
    if aggressor.Buy? then resting <= limit else resting >= limit
  }

  // ---------------------------------------------------------------- one side of the book

  function Tagged(level: Level): seq<Resting> {
    seq(|level.queue|, i requires 0 <= i < |level.queue| =>
      Resting(level.queue[i].id, level.price, level.queue[i].qty))
  }

  /** All resting orders of a side, best price first, FIFO within a price. */
  function Flatten(book: seq<Level>): seq<Resting> {
    if book == [] then [] else Tagged(book[0]) + Flatten(book[1..])
  }

  /** Strictly better prices come first, no level is empty, and every resting quantity is positive. */
  ghost predicate WellFormed(side: Side, book: seq<Level>) {
    && (forall i, j :: 0 <= i < j < |book| ==> Better(side, book[i].price, book[j].price))
    && (forall i :: 0 <= i < |book| ==> book[i].queue != [])
    && (forall i, k :: 0 <= i < |book| && 0 <= k < |book[i].queue| ==> book[i].queue[k].qty > 0)
  }

  /** Popping the head of the best level, and the level with it when that empties it. */
  function DropHead(book: seq<Level>): seq<Level>
    requires book != [] && book[0].queue != []
  {
    if |book[0].queue| == 1 then book[1..]
    else [Level(book[0].price, book[0].queue[1..])] + book[1..]
  }

  function SetHead(book: seq<Level>, qty: Qty): seq<Level>
    requires book != [] && book[0].queue != []
  {
    [Level(book[0].price, [Entry(book[0].queue[0].id, qty)] + book[0].queue[1..])] + book[1..]
  }

  /** Appending at the tail of the level of `price`, which is created at its place if need be. */
  function AddTail(side: Side, book: seq<Level>, price: Price, entry: Entry): seq<Level> {
    if book == [] then [Level(price, [entry])]
    else if book[0].price == price then [Level(price, book[0].queue + [entry])] + book[1..]
    else if Better(side, price, book[0].price) then [Level(price, [entry])] + book
    else [book[0]] + AddTail(side, book[1..], price, entry)
  }

  lemma TaggedHead(level: Level)
    requires level.queue != []
    ensures Tagged(level) ==
      [Resting(level.queue[0].id, level.price, level.queue[0].qty)] + Tagged(Level(level.price, level.queue[1..]))
  {
  }

  lemma FlattenCons(level: Level, rest: seq<Level>)
    ensures Flatten([level] + rest) == Tagged(level) + Flatten(rest)
  {
    assert ([level] + rest)[1..] == rest;
  }

  lemma FlattenFirst(level: Level, rest: seq<Level>)
    requires level.queue != []
    ensures Tagged(level) + Flatten(rest) ==
      [Resting(level.queue[0].id, level.price, level.queue[0].qty)]
      + (Tagged(Level(level.price, level.queue[1..])) + Flatten(rest))
  {
    TaggedHead(level);
  }

  lemma FlattenHead(book: seq<Level>)
    requires book != [] && book[0].queue != []
    ensures var head := book[0].queue[0];
      Flatten(book) == [Resting(head.id, book[0].price, head.qty)] + Flatten(DropHead(book))
  {
    var level, rest := book[0], book[1..];
    var tail := Level(level.price, level.queue[1..]);
    FlattenFirst(level, rest);
    if |level.queue| == 1 {
      assert Tagged(tail) + Flatten(rest) == Flatten(rest);
    } else {
      FlattenCons(tail, rest);
    }
  }

  lemma WellFormedDrop(side: Side, book: seq<Level>)
    requires WellFormed(side, book) && book != []
    ensures WellFormed(side, DropHead(book))
    ensures DropHead(book) != [] ==> !Better(side, DropHead(book)[0].price, book[0].price)
  {
  }

  lemma WellFormedSet(side: Side, book: seq<Level>, qty: Qty)
    requires WellFormed(side, book) && book != [] && qty > 0
    ensures WellFormed(side, SetHead(book, qty))
  {
  }

  lemma FlattenSet(book: seq<Level>, qty: Qty)
    requires book != [] && book[0].queue != []
    ensures Flatten(SetHead(book, qty)) == [Resting(book[0].queue[0].id, book[0].price, qty)] + Flatten(DropHead(book))
  {
    var level, rest := book[0], book[1..];
    var changed := Level(level.price, [Entry(level.queue[0].id, qty)] + level.queue[1..]);
    var tail := Level(level.price, level.queue[1..]);
    assert changed.queue[1..] == level.queue[1..];
    FlattenCons(changed, rest);
    FlattenFirst(changed, rest);
    if |level.queue| == 1 {
      assert Tagged(tail) + Flatten(rest) == Flatten(rest);
    } else {
      FlattenCons(tail, rest);
    }
  }

  // ---------------------------------------------------------------- consuming a crossing prefix

  datatype Sweep = Sweep(trades: seq<Trade>, rest: seq<Resting>, left: Qty)

  /**
   The specification of a sweep: as long as quantity remains and the first resting order crosses,
   trade with it, at its price, for the smaller of the two quantities.
   */
  function Consume(side: Side, id: OrderId, limit: Price, qty: Qty, flat: seq<Resting>): Sweep
    decreases |flat|
  {
    if qty <= 0 || flat == [] || !Crosses(side, limit, flat[0].price) then Sweep([], flat, qty)
    else if qty < flat[0].qty then
      Sweep([Trade(flat[0].id, id, flat[0].price, qty)], [flat[0].(qty := flat[0].qty - qty)] + flat[1..], 0)
    else
      var s := Consume(side, id, limit, qty - flat[0].qty, flat[1..]);
      Sweep([Trade(flat[0].id, id, flat[0].price, flat[0].qty)] + s.trades, s.rest, s.left)
  }

  function Traded(trades: seq<Trade>): int {
    if trades == [] then 0 else trades[0].qty + Traded(trades[1..])
  }

  function Total(flat: seq<Resting>): int {
    if flat == [] then 0 else flat[0].qty + Total(flat[1..])
  }

  ghost predicate Positive(flat: seq<Resting>) {
    forall i :: 0 <= i < |flat| ==> flat[i].qty > 0
  }

  /** The trades are with the first resting orders, in order and at their prices; all but the last fill completely. */
  ghost predicate TradesWithFirst(id: OrderId, trades: seq<Trade>, flat: seq<Resting>) {
    && |trades| <= |flat|
    && forall i :: 0 <= i < |trades| ==>
         && trades[i].restingId == flat[i].id && trades[i].aggressorId == id && trades[i].price == flat[i].price
         && 0 < trades[i].qty <= flat[i].qty
         && (i < |trades| - 1 ==> trades[i].qty == flat[i].qty)
  }

  /** Nothing was bought above the limit, or sold below it. */
  ghost predicate WithinLimit(side: Side, limit: Price, trades: seq<Trade>) {
    forall i :: 0 <= i < |trades| ==> if side == Buy then trades[i].price <= limit else trades[i].price >= limit
  }

  /** What the last trade leaves of its resting order, and all that follows, is the rest. */
  ghost predicate LeavesRest(trades: seq<Trade>, flat: seq<Resting>, rest: seq<Resting>) {
    var k := |trades|;
    && k <= |flat|
    && rest == (
         if k > 0 && trades[k - 1].qty < flat[k - 1].qty
         then [flat[k - 1].(qty := flat[k - 1].qty - trades[k - 1].qty)] + flat[k..]
         else flat[k..])
  }

  /** Nothing is there, or the first resting order asks for more than the limit, or bids less. */
  ghost predicate BeyondLimit(side: Side, limit: Price, rest: seq<Resting>) {
    rest != [] ==> if side == Buy then rest[0].price > limit else rest[0].price < limit
  }

  /** The sweep stops only because the order is filled or the rest is beyond the limit. */
  ghost predicate StopsRightly(side: Side, limit: Price, qty: Qty, s: Sweep) {
    && (s.left <= 0 || BeyondLimit(side, limit, s.rest))
    && s.left == qty - Traded(s.trades)
    && (if qty >= 0 then s.left >= 0 else s.left == qty)
  }

  lemma {:induction false} ConsumeStops(side: Side, id: OrderId, limit: Price, qty: Qty, flat: seq<Resting>)
    ensures StopsRightly(side, limit, qty, Consume(side, id, limit, qty, flat))
    decreases |flat|
  {
    if qty > 0 && flat != [] && Crosses(side, limit, flat[0].price) {
      var s := Consume(side, id, limit, qty, flat);
      if qty < flat[0].qty {
        assert s.trades[1..] == [];
      } else {
        ConsumeStops(side, id, limit, qty - flat[0].qty, flat[1..]);
        assert s.trades[1..] == Consume(side, id, limit, qty - flat[0].qty, flat[1..]).trades;
      }
    }
  }

  /** The recursive sweep consumes a crossing prefix of the resting orders, and a maximal one. */
  lemma {:induction false} ConsumeMeaning(side: Side, id: OrderId, limit: Price, qty: Qty, flat: seq<Resting>)
    requires Positive(flat)
    ensures var s := Consume(side, id, limit, qty, flat);
      && TradesWithFirst(id, s.trades, flat) && WithinLimit(side, limit, s.trades)
      && LeavesRest(s.trades, flat, s.rest)
      && StopsRightly(side, limit, qty, s)
    decreases |flat|
  {
    ConsumeStops(side, id, limit, qty, flat);
    if qty > 0 && flat != [] && Crosses(side, limit, flat[0].price) && qty >= flat[0].qty {
      var tail := flat[1..];
      var s' := Consume(side, id, limit, qty - flat[0].qty, tail);
      ConsumeMeaning(side, id, limit, qty - flat[0].qty, tail);
      ExtendPrefix(id, flat, s');
    }
  }

  lemma ExtendPrefix(id: OrderId, flat: seq<Resting>, s: Sweep)
    requires flat != [] && flat[0].qty > 0
    requires TradesWithFirst(id, s.trades, flat[1..]) && LeavesRest(s.trades, flat[1..], s.rest)
    ensures var trades := [Trade(flat[0].id, id, flat[0].price, flat[0].qty)] + s.trades;
      TradesWithFirst(id, trades, flat) && LeavesRest(trades, flat, s.rest)
  {
    var tail, k := flat[1..], |s.trades|;
    var trades := [Trade(flat[0].id, id, flat[0].price, flat[0].qty)] + s.trades;
    assert tail[k..] == flat[k + 1..];
    assert LeavesRest(trades, flat, s.rest) by {
      if k > 0 { assert trades[k] == s.trades[k - 1] && flat[k] == tail[k - 1]; }
    }
    forall i | 0 <= i < |trades|
      ensures 0 < trades[i].qty <= flat[i].qty
      ensures trades[i].restingId == flat[i].id && trades[i].aggressorId == id && trades[i].price == flat[i].price
      ensures i < |trades| - 1 ==> trades[i].qty == flat[i].qty
    {
      if i > 0 { assert trades[i] == s.trades[i - 1] && flat[i] == tail[i - 1]; }
    }
  }

  /** The opposite side loses exactly what is traded. */
  lemma {:induction false} ConsumeConserves(side: Side, id: OrderId, limit: Price, qty: Qty, flat: seq<Resting>)
    requires Positive(flat)
    ensures var s := Consume(side, id, limit, qty, flat);
      Total(s.rest) == Total(flat) - Traded(s.trades) && Positive(s.rest)
    decreases |flat|
  {
    if qty > 0 && flat != [] && Crosses(side, limit, flat[0].price) {
      if qty < flat[0].qty {
        var s := Consume(side, id, limit, qty, flat);
        assert s.rest[1..] == flat[1..];
      } else {
        var s, s' := Consume(side, id, limit, qty, flat), Consume(side, id, limit, qty - flat[0].qty, flat[1..]);
        ConsumeConserves(side, id, limit, qty - flat[0].qty, flat[1..]);
        assert s.trades[1..] == s'.trades;
      }
    }
  }

  /** What remains of a sweep whose first trade is `t`. */
  ghost predicate Continues(whole: Sweep, t: Trade, rest: Sweep) {
    whole == Sweep([t] + rest.trades, rest.rest, rest.left)
  }

  /** The head of the best level fills completely and goes. */
  lemma FillHead(side: Side, id: OrderId, limit: Price, qty: Qty, book: seq<Level>)
    requires book != [] && book[0].queue != [] && Crosses(side, limit, book[0].price)
    requires qty >= book[0].queue[0].qty > 0
    ensures var head, book' := book[0].queue[0], DropHead(book);
      && Continues(Consume(side, id, limit, qty, Flatten(book)), Trade(head.id, id, book[0].price, head.qty),
                   Consume(side, id, limit, qty - head.qty, Flatten(book')))
      && |Flatten(book')| < |Flatten(book)|
  {
    FlattenHead(book);
    assert Flatten(book)[1..] == Flatten(DropHead(book));
  }

  /** The incoming order fills completely and the head of the best level keeps the difference. */
  lemma FillOrder(side: Side, id: OrderId, limit: Price, qty: Qty, book: seq<Level>)
    requires book != [] && book[0].queue != [] && Crosses(side, limit, book[0].price)
    requires 0 < qty < book[0].queue[0].qty
    ensures var head := book[0].queue[0];
      var book' := SetHead(book, head.qty - qty);
      && Continues(Consume(side, id, limit, qty, Flatten(book)), Trade(head.id, id, book[0].price, qty),
                   Consume(side, id, limit, 0, Flatten(book')))
      && |Flatten(book')| == |Flatten(book)|
  {
    FlattenHead(book);
    var flat := Flatten(book);
    assert flat[1..] == Flatten(DropHead(book));
    FlattenSet(book, book[0].queue[0].qty - qty);
  }

  lemma NoTurn(side: Side, id: OrderId, limit: Price, qty: Qty, book: seq<Level>)
    requires WellFormed(side.Opposite(), book)
    requires qty <= 0 || book == [] || !Crosses(side, limit, book[0].price)
    ensures Consume(side, id, limit, qty, Flatten(book)) == Sweep([], Flatten(book), qty)
  {
    if book != [] { FlattenHead(book); }
  }

  /** The body of the code's loop: one trade with the head of the best level. */
  method FillOnce(side: Side, id: OrderId, limit: Price, qty: Qty, book: seq<Level>)
    returns (t: Trade, book': seq<Level>, qty': Qty)
    requires WellFormed(side.Opposite(), book) && book != [] && Crosses(side, limit, book[0].price) && qty > 0
    ensures Continues(Consume(side, id, limit, qty, Flatten(book)), t, Consume(side, id, limit, qty', Flatten(book')))
    ensures WellFormed(side.Opposite(), book')
    ensures book' != [] ==> !Better(side.Opposite(), book'[0].price, book[0].price)
    ensures |Flatten(book')| < |Flatten(book)| || (|Flatten(book')| == |Flatten(book)| && qty' == 0)
  {
    var level := book[0];
    var head := level.queue[0];
    var fill := if qty < head.qty then qty else head.qty;
    t := Trade(head.id, id, level.price, fill);
    qty' := qty - fill;
    if head.qty - fill == 0 {
      FillHead(side, id, limit, qty, book);
      WellFormedDrop(side.Opposite(), book);
      book' := DropHead(book);
    } else {
      FillOrder(side, id, limit, qty, book);
      WellFormedSet(side.Opposite(), book, head.qty - fill);
      book' := SetHead(book, head.qty - fill);
    }
  }

  lemma BetterTransitive(side: Side, p: Price, q: Price, r: Price)
    requires !Better(side, p, q) && !Better(side, q, r)
    ensures !Better(side, p, r)
  {
  }

  /** The code's sweep: always at the head of the best level, until it stops crossing or the order is filled. */
  method SweepBook(side: Side, id: OrderId, limit: Price, qty0: Qty, book0: seq<Level>)
    returns (trades: seq<Trade>, book: seq<Level>, qty: Qty)
    requires WellFormed(side.Opposite(), book0)
    ensures Sweep(trades, Flatten(book), qty) == Consume(side, id, limit, qty0, Flatten(book0))
    ensures WellFormed(side.Opposite(), book)
    ensures qty > 0 ==> book == [] || !Crosses(side, limit, book[0].price)
    ensures book != [] ==> book0 != [] && !Better(side.Opposite(), book[0].price, book0[0].price)
  {
    trades, book, qty := [], book0, qty0;
    ghost var whole := Consume(side, id, limit, qty0, Flatten(book0));
    ghost var s := whole;
    assert [] + s.trades == s.trades;
    while qty > 0 && book != [] && Crosses(side, limit, book[0].price)
      invariant WellFormed(side.Opposite(), book)
      invariant s == Consume(side, id, limit, qty, Flatten(book))
      invariant whole == Sweep(trades + s.trades, s.rest, s.left)
      invariant book != [] ==> book0 != [] && !Better(side.Opposite(), book[0].price, book0[0].price)
      decreases |Flatten(book)|, qty
    {
      ghost var price := book[0].price;
      var t, book', qty' := FillOnce(side, id, limit, qty, book);
      ghost var s' := Consume(side, id, limit, qty', Flatten(book'));
      ConcatAssociates(trades, [t], s'.trades);
      if book' != [] { BetterTransitive(side.Opposite(), book'[0].price, price, book0[0].price); }
      trades, book, qty, s := trades + [t], book', qty', s';
    }
    NoTurn(side, id, limit, qty, book);
    assert trades + s.trades == trades;
  }

  // ---------------------------------------------------------------- resting

  /** The place of a new resting order: behind all that fill before it or at the same price. */
  function InsertBehind(side: Side, flat: seq<Resting>, r: Resting): seq<Resting> {
    if flat == [] || Better(side, r.price, flat[0].price) then [r] + flat
    else [flat[0]] + InsertBehind(side, flat[1..], r)
  }

  /** Priority order: nobody stands behind somebody with a worse price. */
  ghost predicate InPriority(side: Side, flat: seq<Resting>) {
    forall i, j :: 0 <= i < j < |flat| ==> !Better(side, flat[j].price, flat[i].price)
  }

  /** The new order joins the tail of its own price: everybody before it is at least as good, everybody after strictly worse. */
  lemma {:induction false} InsertMeaning(side: Side, flat: seq<Resting>, r: Resting) returns (k: nat)
    requires InPriority(side, flat)
    ensures k <= |flat| && InsertBehind(side, flat, r) == flat[..k] + [r] + flat[k..]
    ensures forall i :: 0 <= i < k ==> if side == Buy then flat[i].price >= r.price else flat[i].price <= r.price
    ensures forall i :: k <= i < |flat| ==> if side == Buy then flat[i].price < r.price else flat[i].price > r.price
    decreases |flat|
  {
    if flat == [] || Better(side, r.price, flat[0].price) {
      k := 0;
    } else {
      var k' := InsertMeaning(side, flat[1..], r);
      k := k' + 1;
      assert flat[..k] == [flat[0]] + flat[1..][..k'] && flat[k..] == flat[1..][k'..];
      assert forall i :: 0 < i < |flat| ==> flat[i] == flat[1..][i - 1];
    }
  }

  /** Within one level the insertion runs past all its orders. */
  lemma {:induction false} InsertPastLevel(side: Side, level: Level, flat: seq<Resting>, r: Resting)
    requires !Better(side, r.price, level.price)
    ensures InsertBehind(side, Tagged(level) + flat, r) == Tagged(level) + InsertBehind(side, flat, r)
    decreases |level.queue|
  {
    if level.queue == [] {
      assert Tagged(level) + flat == flat && Tagged(level) + InsertBehind(side, flat, r) == InsertBehind(side, flat, r);
    } else {
      var tail := Level(level.price, level.queue[1..]);
      TaggedHead(level);
      var first := Tagged(level)[0];
      InsertPastLevel(side, tail, flat, r);
      assert (Tagged(level) + flat)[1..] == Tagged(tail) + flat;
      assert Tagged(level) + InsertBehind(side, flat, r) == [first] + (Tagged(tail) + InsertBehind(side, flat, r));
    }
  }

  lemma FirstPrice(side: Side, book: seq<Level>)
    requires WellFormed(side, book)
    ensures Flatten(book) == [] <==> book == []
    ensures book != [] ==> Flatten(book)[0].price == book[0].price
  {
    if book != [] { FlattenHead(book); }
  }

  lemma InsertInFront(side: Side, book: seq<Level>, price: Price, entry: Entry)
    requires WellFormed(side, book) && (book == [] || Better(side, price, book[0].price))
    ensures Flatten([Level(price, [entry])] + book) ==
            InsertBehind(side, Flatten(book), Resting(entry.id, price, entry.qty))
  {
    FirstPrice(side, book);
    FlattenCons(Level(price, [entry]), book);
    assert Tagged(Level(price, [entry])) == [Resting(entry.id, price, entry.qty)];
  }

  lemma InsertIntoFirst(side: Side, book: seq<Level>, entry: Entry)
    requires WellFormed(side, book) && book != []
    ensures Flatten([Level(book[0].price, book[0].queue + [entry])] + book[1..]) ==
            InsertBehind(side, Flatten(book), Resting(entry.id, book[0].price, entry.qty))
  {
    var price, rest := book[0].price, book[1..];
    var r, longer := Resting(entry.id, price, entry.qty), Level(price, book[0].queue + [entry]);
    FlattenCons(longer, rest);
    FirstPrice(side, rest);
    assert rest == [] || Better(side, price, rest[0].price);
    InsertPastLevel(side, book[0], Flatten(rest), r);
    assert Tagged(longer) == Tagged(book[0]) + [r];
    ConcatAssociates(Tagged(book[0]), [r], Flatten(rest));
  }

  /** Appending to the level of the price is inserting behind everything as good. */
  lemma {:induction false} AddTailInserts(side: Side, book: seq<Level>, price: Price, entry: Entry)
    requires WellFormed(side, book)
    ensures Flatten(AddTail(side, book, price, entry)) ==
            InsertBehind(side, Flatten(book), Resting(entry.id, price, entry.qty))
    decreases |book|
  {
    if book == [] || Better(side, price, book[0].price) {
      InsertInFront(side, book, price, entry);
      assert [Level(price, [entry])] + [] == [Level(price, [entry])];
    } else if book[0].price == price {
      InsertIntoFirst(side, book, entry);
    } else {
      FlattenCons(book[0], AddTail(side, book[1..], price, entry));
      InsertPastLevel(side, book[0], Flatten(book[1..]), Resting(entry.id, price, entry.qty));
      AddTailInserts(side, book[1..], price, entry);
    }
  }

  lemma {:induction false} AddTailWellFormed(side: Side, book: seq<Level>, price: Price, entry: Entry)
    requires WellFormed(side, book) && entry.qty > 0
    ensures WellFormed(side, AddTail(side, book, price, entry))
    ensures var book' := AddTail(side, book, price, entry);
      book' != [] && (book'[0].price == price || (book != [] && book'[0].price == book[0].price))
    decreases |book|
  {
    if book != [] && book[0].price != price && !Better(side, price, book[0].price) {
      AddTailWellFormed(side, book[1..], price, entry);
    }
  }

  /** A well-formed side is in priority order, with positive quantities. */
  lemma {:induction false} FlattenInPriority(side: Side, book: seq<Level>)
    requires WellFormed(side, book)
    ensures InPriority(side, Flatten(book)) && Positive(Flatten(book))
    ensures book != [] ==> forall i :: 0 <= i < |Flatten(book)| ==> !Better(side, Flatten(book)[i].price, book[0].price)
    decreases |book|
  {
    if book != [] {
      FlattenInPriority(side, book[1..]);
      var head, tail := Tagged(book[0]), Flatten(book[1..]);
      forall j | 0 <= j < |tail| ensures !Better(side, tail[j].price, book[0].price) {
        assert !Better(side, tail[j].price, book[1].price);
      }
    }
  }

  // ---------------------------------------------------------------- cancelling

  lemma ConcatAssociates<T>(a: seq<T>, b: seq<T>, c: seq<T>)
    ensures (a + b) + c == a + (b + c)
  {
  }

  lemma {:induction false} FlattenConcat(a: seq<Level>, b: seq<Level>)
    ensures Flatten(a + b) == Flatten(a) + Flatten(b)
    decreases |a|
  {
    if a == [] {
      assert a + b == b;
    } else {
      var first, rest := a[0], a[1..];
      assert a == [first] + rest;
      ConcatAssociates([first], rest, b);
      FlattenCons(first, rest + b);
      FlattenConcat(rest, b);
      ConcatAssociates(Tagged(first), Flatten(rest), Flatten(b));
    }
  }

  /** Where a resting order stands: its level, and its place in the queue of that level. */
  lemma {:induction false} Locate(book: seq<Level>, j: nat) returns (at: nat, k: nat)
    requires j < |Flatten(book)|
    ensures at < |book| && k < |book[at].queue|
    ensures Flatten(book)[j].id == book[at].queue[k].id && Flatten(book)[j].price == book[at].price
    decreases |book|
  {
    if j < |book[0].queue| {
      at, k := 0, j;
    } else {
      var at', k' := Locate(book[1..], j - |book[0].queue|);
      at, k := at' + 1, k';
    }
  }

  function RemoveAt(book: seq<Level>, at: nat, k: nat): seq<Level>
    requires at < |book| && k < |book[at].queue|
  {
    var queue := book[at].queue[..k] + book[at].queue[k + 1..];
    if queue == [] then book[..at] + book[at + 1..] else book[at := Level(book[at].price, queue)]
  }

  /** `after` is `before` without the one order `id`. */
  ghost predicate Removed(before: seq<Resting>, after: seq<Resting>, id: OrderId) {
    exists j :: 0 <= j < |before| && before[j].id == id && after == before[..j] + before[j + 1..]
  }

  lemma RemoveInside(a: seq<Resting>, t: seq<Resting>, b: seq<Resting>, k: nat)
    requires k < |t|
    ensures var whole, j := a + (t + b), |a| + k;
      whole[j] == t[k] && whole[..j] + whole[j + 1..] == a + ((t[..k] + t[k + 1..]) + b)
  {
  }

  lemma SplitAround(book: seq<Level>, at: nat)
    requires at < |book|
    ensures book == book[..at] + ([book[at]] + book[at + 1..])
  {
  }

  lemma FlattenAround(book: seq<Level>, at: nat)
    requires at < |book|
    ensures Flatten(book) == Flatten(book[..at]) + (Tagged(book[at]) + Flatten(book[at + 1..]))
  {
    SplitAround(book, at);
    FlattenConcat(book[..at], [book[at]] + book[at + 1..]);
    FlattenCons(book[at], book[at + 1..]);
  }

  lemma RemoveAtRemoves(book: seq<Level>, at: nat, k: nat)
    requires at < |book| && k < |book[at].queue|
    ensures Removed(Flatten(book), Flatten(RemoveAt(book, at, k)), book[at].queue[k].id)
  {
    var a, level, b := book[..at], book[at], book[at + 1..];
    var shorter := Level(level.price, level.queue[..k] + level.queue[k + 1..]);
    assert Tagged(shorter) == Tagged(level)[..k] + Tagged(level)[k + 1..];
    FlattenAround(book, at);
    RemoveInside(Flatten(a), Tagged(level), Flatten(b), k);
    var after := RemoveAt(book, at, k);
    if shorter.queue == [] {
      FlattenConcat(a, b);
      assert Tagged(shorter) + Flatten(b) == Flatten(b);
    } else {
      FlattenAround(after, at);
      assert after[..at] == a && after[at + 1..] == b;
    }
  }

  /** The levels after a removal: the old ones in order, one of them shorter or gone. */
  lemma RemoveAtLevels(book: seq<Level>, at: nat, k: nat, i: nat) returns (f: nat)
    requires at < |book| && k < |book[at].queue| && i < |RemoveAt(book, at, k)|
    ensures f < |book| && f == (if |book[at].queue| == 1 && i >= at then i + 1 else i)
    ensures var level := RemoveAt(book, at, k)[i];
      level.price == book[f].price
      && (level == book[f] || (level.queue == book[f].queue[..k] + book[f].queue[k + 1..] && level.queue != []))
  {
    f := if |book[at].queue| == 1 && i >= at then i + 1 else i;
    assert |book[at].queue[..k] + book[at].queue[k + 1..]| == |book[at].queue| - 1;
  }

  lemma RemoveAtWellFormed(side: Side, book: seq<Level>, at: nat, k: nat)
    requires WellFormed(side, book) && at < |book| && k < |book[at].queue|
    ensures WellFormed(side, RemoveAt(book, at, k))
    ensures RemoveAt(book, at, k) != [] ==> !Better(side, RemoveAt(book, at, k)[0].price, book[0].price)
  {
    var after := RemoveAt(book, at, k);
    forall i, j | 0 <= i < j < |after| ensures Better(side, after[i].price, after[j].price) {
      var f := RemoveAtLevels(book, at, k, i);
      var g := RemoveAtLevels(book, at, k, j);
    }
    forall i | 0 <= i < |after| ensures after[i].queue != [] {
      var f := RemoveAtLevels(book, at, k, i);
    }
    forall i, m | 0 <= i < |after| && 0 <= m < |after[i].queue| ensures after[i].queue[m].qty > 0 {
      var f := RemoveAtLevels(book, at, k, i);
    }
    if after != [] {
      var f := RemoveAtLevels(book, at, k, 0);
    }
  }

  /** Is there a resting order with this id at this price? */
  ghost predicate HasAt(flat: seq<Resting>, price: Price, id: OrderId) {
    exists j :: 0 <= j < |flat| && flat[j].id == id && flat[j].price == price
  }

  lemma LocateAbsent(side: Side, book: seq<Level>, price: Price, id: OrderId, at: nat)
    requires WellFormed(side, book) && at <= |book|
    requires forall i :: 0 <= i < |book| && i != at ==> book[i].price != price
    requires at < |book| ==> forall k :: 0 <= k < |book[at].queue| ==> book[at].queue[k].id != id
    ensures !HasAt(Flatten(book), price, id)
  {
    forall j | 0 <= j < |Flatten(book)| ensures Flatten(book)[j].id != id || Flatten(book)[j].price != price {
      var i, k := Locate(book, j);
    }
  }

  lemma LocatePresent(book: seq<Level>, at: nat, k: nat)
    requires at < |book| && k < |book[at].queue|
    ensures HasAt(Flatten(book), book[at].price, book[at].queue[k].id)
  {
    FlattenAround(book, at);
    RemoveInside(Flatten(book[..at]), Tagged(book[at]), Flatten(book[at + 1..]), k);
  }

  /** The code's search: the level of the price, then the queue from its front. */
  method RemoveFromLevel(side: Side, book: seq<Level>, price: Price, id: OrderId)
    returns (found: bool, book': seq<Level>)
    requires WellFormed(side, book)
    ensures found <==> HasAt(Flatten(book), price, id)
    ensures if found then Removed(Flatten(book), Flatten(book'), id) else book' == book
    ensures WellFormed(side, book')
    ensures book' != [] ==> book != [] && !Better(side, book'[0].price, book[0].price)
  {
    var at := 0;
    while at < |book| && book[at].price != price
      invariant at <= |book|
      invariant forall i :: 0 <= i < at ==> book[i].price != price
    {
      at := at + 1;
    }
    if at < |book| {
      var k := 0;
      while k < |book[at].queue|
        invariant k <= |book[at].queue|
        invariant forall i :: 0 <= i < k ==> book[at].queue[i].id != id
      {
        if book[at].queue[k].id == id {
          LocatePresent(book, at, k);
          RemoveAtRemoves(book, at, k);
          RemoveAtWellFormed(side, book, at, k);
          return true, RemoveAt(book, at, k);
        }
        k := k + 1;
      }
    }
    LocateAbsent(side, book, price, id, at);
    return false, book;
  }
}
