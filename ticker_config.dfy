/**
  The shared ticker configuration, modelled only through the operations the exchange and the
  application delegate call on it: the ordered selection of pairs, the last price per pair, the
  real-time flag and the default exchange site.
*/
module Config {
  import opened Pairs

  /** The identifier of an exchange backend. */
  datatype ExchangeSite = ExchangeSite(name: string)

  /** `price(for:)`: the cached price of a pair, 0 (the loading sentinel) when none is cached. */
  function PriceOf(prices: map<PairKey, real>, p: CurrencyPair): real
  {
    if Key(p) in prices then prices[Key(p)] else 0.0
  }

  class TickerConfig {
    var selectedCurrencyPairs: seq<CurrencyPair>
    var prices: map<PairKey, real>
    var isRealTimeUpdateIntervalSelected: bool
    var defaultExchangeSite: ExchangeSite

    /** The selection is an ordered set: no pair is selected twice. */
    ghost predicate Valid()
      reads this
    {
      UniqueKeys(selectedCurrencyPairs)
    }

    constructor (site: ExchangeSite, realTime: bool)
      ensures Valid()
      ensures selectedCurrencyPairs == [] && prices == map[]
      ensures isRealTimeUpdateIntervalSelected == realTime && defaultExchangeSite == site
    {
      selectedCurrencyPairs := [];
      prices := map[];
      isRealTimeUpdateIntervalSelected := realTime;
      defaultExchangeSite := site;
    }

    /** `toggle(currencyPair:)`: deselect a selected pair, otherwise append it to the selection. */
    method Toggle(p: CurrencyPair)
      requires Valid()
      modifies this`selectedCurrencyPairs
      ensures Valid()
      ensures Contains(old(selectedCurrencyPairs), p) ==> selectedCurrencyPairs == Without(old(selectedCurrencyPairs), p)
      ensures !Contains(old(selectedCurrencyPairs), p) ==> selectedCurrencyPairs == old(selectedCurrencyPairs) + [p]
    {
      if Contains(selectedCurrencyPairs, p) {
        WithoutKeepsUnique(selectedCurrencyPairs, p);
        selectedCurrencyPairs := Without(selectedCurrencyPairs, p);
      } else {
        var s := selectedCurrencyPairs + [p];
        assert forall i | 0 <= i < |selectedCurrencyPairs| :: Key(s[i]) != Key(p);
        selectedCurrencyPairs := s;
      }
    }

    /** `deselect(currencyPair:)`: the selection without that pair, the rest in order. */
    method Deselect(p: CurrencyPair)
      requires Valid()
      modifies this`selectedCurrencyPairs
      ensures Valid()
      ensures selectedCurrencyPairs == Without(old(selectedCurrencyPairs), p)
    {
      WithoutKeepsUnique(selectedCurrencyPairs, p);
      selectedCurrencyPairs := Without(selectedCurrencyPairs, p);
    }

    /** `setPrice(_:for:)`: caches the price of one pair; every other pair keeps its price. */
    method SetPrice(price: real, p: CurrencyPair)
      modifies this`prices
      ensures PriceOf(prices, p) == price
      ensures forall q :: Key(q) != Key(p) ==> PriceOf(prices, q) == PriceOf(old(prices), q)
    {
      prices := prices[Key(p) := price];
    }
  }
}
