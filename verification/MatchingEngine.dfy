/** The matching engine: two sides of the book and an index of where orders rest. */
module MatchingEngine {
  import opened OrderBook

  datatype Loc = Loc(side: Side, price: Price)

  /** Every order in the list is indexed at this side and at its price. */
  ghost predicate Listed(flat: seq<Resting>, side: Side, index: map<OrderId, Loc>) {
    forall i :: 0 <= i < |flat| ==> flat[i].id in index && index[flat[i].id] == Loc(side, flat[i].price)
  }

  ghost predicate DistinctIds(flat: seq<Resting>) {
    forall i, j :: 0 <= i < j < |flat| ==> flat[i].id != flat[j].id
  }

  ghost predicate Holds(flat: seq<Resting>, id: OrderId) {
    exists i :: 0 <= i < |flat| && flat[i].id == id
  }

  lemma LeavesSuffix(trades: seq<Trade>, flat: seq<Resting>, rest: seq<Resting>) returns (d: nat)
    requires LeavesRest(trades, flat, rest)
    ensures |rest| + d == |flat|
    ensures forall i :: 0 <= i < |rest| ==> rest[i].id == flat[i + d].id && rest[i].price == flat[i + d].price
  {
    d := |flat| - |rest|;
  }

  /** What a sweep leaves are the last resting orders, under their ids and prices. */
  lemma RestIsSuffix(side: Side, id: OrderId, limit: Price, qty: Qty, flat: seq<Resting>) returns (d: nat)
    requires Positive(flat)
    ensures var rest := Consume(side, id, limit, qty, flat).rest;
      |rest| + d == |flat| && forall i :: 0 <= i < |rest| ==> rest[i].id == flat[i + d].id && rest[i].price == flat[i + d].price
  {
    var s := Consume(side, id, limit, qty, flat);
    ConsumeMeaning(side, id, limit, qty, flat);
    d := LeavesSuffix(s.trades, flat, s.rest);
  }

  lemma SweepKeepsListing(
      side: Side, id: OrderId, limit: Price, qty: Qty, flat: seq<Resting>, index: map<OrderId, Loc>, own: Side)
    requires Positive(flat) && Listed(flat, own, index) && DistinctIds(flat)
    ensures var rest := Consume(side, id, limit, qty, flat).rest; Listed(rest, own, index) && DistinctIds(rest)
    ensures forall x :: Holds(Consume(side, id, limit, qty, flat).rest, x) ==> Holds(flat, x)
  {
    var d := RestIsSuffix(side, id, limit, qty, flat);
    var rest := Consume(side, id, limit, qty, flat).rest;
    forall x | Holds(rest, x) ensures Holds(flat, x) {
      var i :| 0 <= i < |rest| && rest[i].id == x;
      assert flat[i + d].id == x;
    }
  }

  lemma InsertKeepsListing(side: Side, flat: seq<Resting>, r: Resting, index: map<OrderId, Loc>)
    requires InPriority(side, flat) && Listed(flat, side, index) && DistinctIds(flat) && !Holds(flat, r.id)
    ensures var flat' := InsertBehind(side, flat, r);
      Listed(flat', side, index[r.id := Loc(side, r.price)]) && DistinctIds(flat')
  {
    var k := InsertMeaning(side, flat, r);
  }

  lemma RemovalKeepsListing(
      before: seq<Resting>, after: seq<Resting>, id: OrderId, side: Side, index: map<OrderId, Loc>)
    requires Removed(before, after, id) && Listed(before, side, index) && DistinctIds(before)
    ensures Listed(after, side, index - {id}) && DistinctIds(after)
  {
    var j :| 0 <= j < |before| && before[j].id == id && after == before[..j] + before[j + 1..];
    forall i | 0 <= i < |after| ensures after[i] == before[if i < j then i else i + 1] {}
  }

  /** What other ids do to the index does not matter to a list. */
  lemma UntouchedListing(
      flat: seq<Resting>, side: Side, index: map<OrderId, Loc>, index': map<OrderId, Loc>, id: OrderId)
    requires Listed(flat, side, index) && !Holds(flat, id)
    requires forall x :: x in index && x != id ==> x in index' && index'[x] == index[x]
    ensures Listed(flat, side, index')
  {
  }

  /** A well-formed side whose every resting order is indexed where it rests, under an id of its own. */
  ghost predicate Sound(side: Side, book: seq<Level>, index: map<OrderId, Loc>) {
    WellFormed(side, book) && Listed(Flatten(book), side, index) && DistinctIds(Flatten(book))
  }

  /** The best bid is below the best ask. */
  ghost predicate Uncrossed(side: Side, own: seq<Level>, opposite: seq<Level>) {
    own != [] && opposite != [] ==>
      if side == Buy then own[0].price < opposite[0].price else opposite[0].price < own[0].price
  }

  /**
   What adding an order means for the two flattened sides: the crossing prefix of the opposite side is
   consumed, and what is left of the order, if anything, stands on its own side behind everything as good.
   */
  ghost predicate Added(
      order: Order, own: seq<Resting>, opposite: seq<Resting>, index: map<OrderId, Loc>, trades: seq<Trade>,
      own': seq<Resting>, opposite': seq<Resting>, index': map<OrderId, Loc>) {
    var s := Consume(order.side, order.id, order.price, order.qty, opposite);
    && trades == s.trades
    && opposite' == s.rest
    && own' == (if s.left > 0 then InsertBehind(order.side, own, Resting(order.id, order.price, s.left)) else own)
    && index' == (if s.left > 0 then index[order.id := Loc(order.side, order.price)] else index)
  }

  lemma {:induction false} InsertAdds(side: Side, flat: seq<Resting>, r: Resting)
    ensures Total(InsertBehind(side, flat, r)) == Total(flat) + r.qty
    decreases |flat|
  {
    if flat == [] || Better(side, r.price, flat[0].price) {
      assert ([r] + flat)[1..] == flat;
    } else {
      InsertAdds(side, flat[1..], r);
      assert InsertBehind(side, flat, r)[1..] == InsertBehind(side, flat[1..], r);
    }
  }

  /**
   Conservation: the quantity ordered is traded or comes to rest, the opposite side loses what is
   traded, every trade is with the next resting order in priority at its own price, and the order
   rests only when nothing is left that it could trade with.
   */
  lemma AddedConserves(
      order: Order, own: seq<Resting>, opposite: seq<Resting>, index: map<OrderId, Loc>, trades: seq<Trade>,
      own': seq<Resting>, opposite': seq<Resting>, index': map<OrderId, Loc>)
    requires Added(order, own, opposite, index, trades, own', opposite', index')
    requires Positive(opposite) && order.qty >= 0
    ensures order.qty == Traded(trades) + (Total(own') - Total(own))
    ensures Total(opposite') == Total(opposite) - Traded(trades)
    ensures TradesWithFirst(order.id, trades, opposite) && LeavesRest(trades, opposite, opposite')
    ensures WithinLimit(order.side, order.price, trades)
    ensures order.qty > Traded(trades) ==> BeyondLimit(order.side, order.price, opposite')
  {
    var s := Consume(order.side, order.id, order.price, order.qty, opposite);
    ConsumeMeaning(order.side, order.id, order.price, order.qty, opposite);
    ConsumeConserves(order.side, order.id, order.price, order.qty, opposite);
    InsertAdds(order.side, own, Resting(order.id, order.price, s.left));
  }

  /** No trade is beyond the order's limit, and an order not filled leaves nothing to trade with at its limit. */
  ghost predicate KeepsLimit(order: Order, trades: seq<Trade>, opposite': seq<Level>) {
    && WithinLimit(order.side, order.price, trades)
    && (order.qty > Traded(trades) && opposite' != [] ==>
          if order.side == Buy then opposite'[0].price > order.price else opposite'[0].price < order.price)
  }

  /** Either branch of the code's `add_order`, with the roles of the two sides named. */
  method SweepAndRest(order: Order, own: seq<Level>, opposite: seq<Level>, index: map<OrderId, Loc>)
    returns (trades: seq<Trade>, own': seq<Level>, opposite': seq<Level>, index': map<OrderId, Loc>)
    requires Sound(order.side, own, index) && Sound(order.side.Opposite(), opposite, index)
    requires Uncrossed(order.side, own, opposite)
    requires !Holds(Flatten(own), order.id) && !Holds(Flatten(opposite), order.id)
    ensures Sound(order.side, own', index') && Sound(order.side.Opposite(), opposite', index')
    ensures Uncrossed(order.side, own', opposite')
    ensures Added(order, Flatten(own), Flatten(opposite), index, trades, Flatten(own'), Flatten(opposite'), index')
    ensures KeepsLimit(order, trades, opposite')
  {
    FlattenInPriority(order.side.Opposite(), opposite);
    ConsumeMeaning(order.side, order.id, order.price, order.qty, Flatten(opposite));
    SweepKeepsListing(order.side, order.id, order.price, order.qty, Flatten(opposite), index, order.side.Opposite());
    var left;
    trades, opposite', left := SweepBook(order.side, order.id, order.price, order.qty, opposite);
    FirstPrice(order.side.Opposite(), opposite');
    own', index' := own, index;
    if left > 0 {
      own' := AddTail(order.side, own, order.price, Entry(order.id, left));
      index' := index[order.id := Loc(order.side, order.price)];
      RestKeepsSound(order, left, own, index);
      UntouchedListing(Flatten(opposite'), order.side.Opposite(), index, index', order.id);
    }
  }

  lemma RestKeepsSound(order: Order, left: Qty, own: seq<Level>, index: map<OrderId, Loc>)
    requires Sound(order.side, own, index) && !Holds(Flatten(own), order.id) && left > 0
    ensures var own', flat := AddTail(order.side, own, order.price, Entry(order.id, left)), Flatten(own);
      && Sound(order.side, own', index[order.id := Loc(order.side, order.price)])
      && Flatten(own') == InsertBehind(order.side, flat, Resting(order.id, order.price, left))
      && own' != [] && (own'[0].price == order.price || (own != [] && own'[0].price == own[0].price))
  {
    FlattenInPriority(order.side, own);
    AddTailInserts(order.side, own, order.price, Entry(order.id, left));
    AddTailWellFormed(order.side, own, order.price, Entry(order.id, left));
    InsertKeepsListing(order.side, Flatten(own), Resting(order.id, order.price, left), index);
  }

  /** Only its indexed place can hold an order. */
  lemma IndexLocates(flat: seq<Resting>, side: Side, index: map<OrderId, Loc>, id: OrderId)
    requires Listed(flat, side, index)
    ensures Holds(flat, id) <==> id in index && index[id].side == side && HasAt(flat, index[id].price, id)
  {
  }

  lemma RemovalKeepsSound(
      side: Side, own: seq<Level>, own': seq<Level>, opposite: seq<Level>, index: map<OrderId, Loc>, id: OrderId)
    requires Sound(side, own, index) && Sound(side.Opposite(), opposite, index)
    requires id in index && index[id].side == side && WellFormed(side, own')
    requires if HasAt(Flatten(own), index[id].price, id) then Removed(Flatten(own), Flatten(own'), id) else own' == own
    ensures Sound(side, own', index - {id}) && Sound(side.Opposite(), opposite, index - {id})
    ensures !Holds(Flatten(opposite), id)
  {
    IndexLocates(Flatten(own), side, index, id);
    IndexLocates(Flatten(opposite), side.Opposite(), index, id);
    UntouchedListing(Flatten(opposite), side.Opposite(), index, index - {id}, id);
    if HasAt(Flatten(own), index[id].price, id) {
      RemovalKeepsListing(Flatten(own), Flatten(own'), id, side, index);
    } else {
      UntouchedListing(Flatten(own), side, index, index - {id}, id);
    }
  }

  /** The removal the code applies to the side its index names. */
  method Withdraw(side: Side, own: seq<Level>, ghost opposite: seq<Level>, price: Price, id: OrderId,
                  ghost index: map<OrderId, Loc>)
    returns (found: bool, own': seq<Level>)
    requires Sound(side, own, index) && Sound(side.Opposite(), opposite, index) && Uncrossed(side, own, opposite)
    requires id in index && index[id] == Loc(side, price)
    ensures Sound(side, own', index - {id}) && Sound(side.Opposite(), opposite, index - {id})
    ensures Uncrossed(side, own', opposite)
    ensures !Holds(Flatten(opposite), id) && (found <==> Holds(Flatten(own), id))
    ensures if found then Removed(Flatten(own), Flatten(own'), id) else own' == own
  {
    found, own' := RemoveFromLevel(side, own, price, id);
    RemovalKeepsSound(side, own, own', opposite, index, id);
    IndexLocates(Flatten(own), side, index, id);
  }

  class Engine {
    /** `std::map`s, read from `begin()`: best price first. */
    var bids: seq<Level>
    var asks: seq<Level>
    var index: map<OrderId, Loc>

    /** Sound sides that do not cross. The index may also hold ids that rest no more. */
    ghost predicate Valid()
      reads this
    {
      Sound(Buy, bids, index) && Sound(Sell, asks, index) && Uncrossed(Buy, bids, asks)
    }

    /** The resting orders of a side, in priority order. */
    ghost function Side(side: Side): seq<Resting>
      reads this
    {
      Flatten(if side.Buy? then bids else asks)
    }

    ghost predicate Rests(id: OrderId)
      reads this
    {
      Holds(Side(Buy), id) || Holds(Side(Sell), id)
    }

    /** Bids fall, asks rise, no level is empty, and every bid is below every ask. */
    lemma PriceOrder()
      requires Valid()
      ensures forall i, j :: 0 <= i < j < |bids| ==> bids[i].price > bids[j].price
      ensures forall i, j :: 0 <= i < j < |asks| ==> asks[i].price < asks[j].price
      ensures forall i, j :: 0 <= i < |bids| && 0 <= j < |asks| ==> bids[i].price < asks[j].price
    {
      forall i, j | 0 <= i < |bids| && 0 <= j < |asks|
        ensures bids[i].price <= bids[0].price < asks[0].price <= asks[j].price
      {
        assert i > 0 ==> Better(Buy, bids[0].price, bids[i].price);
        assert j > 0 ==> Better(Sell, asks[0].price, asks[j].price);
      }
    }

    constructor ()
      ensures Valid() && Side(Buy) == [] && Side(Sell) == [] && index == map[]
    {
      bids, asks, index := [], [], map[];
    }

    /** An order under an id that does not rest. */
    method AddOrder(order: Order) returns (trades: seq<Trade>)
      requires Valid() && !Rests(order.id)
      modifies this
      ensures Valid()
      ensures Added(order, old(Side(order.side)), old(Side(order.side.Opposite())), old(index), trades,
                    Side(order.side), Side(order.side.Opposite()), index)
      ensures KeepsLimit(order, trades, if order.side == Buy then asks else bids)
    {
      if order.side == Buy {
        trades, bids, asks, index := SweepAndRest(order, bids, asks, index);
      } else {
        trades, asks, bids, index := SweepAndRest(order, asks, bids, index);
      }
    }

    /** True exactly when the id rests; then that order alone goes. Its index entry goes in any case. */
    method CancelOrder(id: OrderId) returns (found: bool)
      requires Valid()
      modifies this
      ensures Valid()
      ensures found <==> old(Rests(id))
      ensures index == old(index) - {id}
      ensures !found ==> bids == old(bids) && asks == old(asks)
      ensures found ==>
        var side := old(index)[id].side;
        Removed(old(Side(side)), Side(side), id) && Side(side.Opposite()) == old(Side(side.Opposite()))
    {
      if id !in index {
        IndexLocates(Side(Buy), Buy, index, id);
        IndexLocates(Side(Sell), Sell, index, id);
        return false;
      }
      var loc := index[id];
      if loc.side == Buy {
        found, bids := Withdraw(Buy, bids, asks, loc.price, id, index);
      } else {
        found, asks := Withdraw(Sell, asks, bids, loc.price, id, index);
      }
      index := index - {id};
    }
  }
}
