/**
  The application delegate: it owns the current exchange, reconciles the selection when the
  exchange publishes its pairs, rebuilds the currency menu and the status title, and starts and
  stops the exchange on exchange switches, network changes, sleep, wake and termination.
*/
module App {
  import opened Pairs
  import opened Config
  import opened Bitstamp
  import opened Selection
  import opened Menu

  /** The network status the reachability listener reports. */
  datatype ReachabilityStatus = Unknown | NotReachable | ReachableEthernetOrWiFi | ReachableWWAN

  /** Only the two reachable statuses count as online. */
  predicate IsOnline(status: ReachabilityStatus)
  {
    status.ReachableEthernetOrWiFi? || status.ReachableWWAN?
  }

  class AppDelegate {
    /** The shared configuration. */
    const config: TickerConfig
    /** The currency registry that `Currency.build(fromCode:)` consults. */
    const catalog: Catalog
    /** The locale's currency code, if it has one. */
    const localCurrencyCode: Option<string>
    /** The localized labels shown while a price loads and while offline. */
    const loadingLabel: string
    const offlineLabel: string
    /** The currency formatter: price, quote currency and maximum fraction digits to text. */
    const formatPrice: (real, Currency, nat) -> string

    /** Null until launch finishes. */
    var currentExchange: Exchange?
    /** The exchange-site menu entry that is checked, if the menu exists yet. */
    var checkedExchangeSite: Option<ExchangeSite>
    var currencyMenuItems: seq<BaseItem>
    var statusTitle: string
    /** The status-bar image, named by the currency whose icon it shows. */
    var statusIcon: Option<Currency>
    /** Whether the sleep and wake notifications are observed. */
    var observing: bool

    ghost predicate Valid()
      reads this, config, currentExchange
    {
      config.Valid() && (currentExchange != null ==> currentExchange.Valid())
    }

    /** The sockets of the current exchange, the objects its `fetch` and `stop` change. */
    function ExchangeSockets(): set<WebSocket>
      reads this, currentExchange
    {
      if currentExchange != null then currentExchange.SocketSet() else {}
    }

    constructor (config: TickerConfig, catalog: Catalog, localCurrencyCode: Option<string>,
                 loadingLabel: string, offlineLabel: string, formatPrice: (real, Currency, nat) -> string)
      requires config.Valid()
      ensures Valid()
      ensures this.config == config && this.catalog == catalog && this.localCurrencyCode == localCurrencyCode
      ensures this.loadingLabel == loadingLabel && this.offlineLabel == offlineLabel && this.formatPrice == formatPrice
      ensures currentExchange == null && checkedExchangeSite == None && currencyMenuItems == []
      ensures statusTitle == "" && statusIcon == None && !observing
    {
      this.config := config;
      this.catalog := catalog;
      this.localCurrencyCode := localCurrencyCode;
      this.loadingLabel := loadingLabel;
      this.offlineLabel := offlineLabel;
      this.formatPrice := formatPrice;
      currentExchange := null;
      checkedExchangeSite := None;
      currencyMenuItems := [];
      statusTitle := "";
      statusIcon := None;
      observing := false;
    }

    /** Assigning `currentExchange` also records its site as the default exchange site. */
    method SetCurrentExchange(e: Exchange)
      modifies this`currentExchange, config`defaultExchangeSite
      ensures currentExchange == e && config.defaultExchangeSite == e.site
    {
      currentExchange := e;
      config.defaultExchangeSite := e.site;
    }

    /**
      `applicationDidFinishLaunching`: observe sleep and wake, build the exchange of the default
      site, check its entry in the exchange menu, and show the offline text when the network is
      not reachable.
    */
    method ApplicationDidFinishLaunching(reachable: bool)
      requires config.Valid()
      modifies this`observing, this`currentExchange, this`checkedExchangeSite, this`statusTitle, this`statusIcon,
        config`defaultExchangeSite
      ensures Valid() && observing
      ensures fresh(currentExchange) && currentExchange.site == old(config.defaultExchangeSite)
      ensures currentExchange.availableCurrencyPairs == [] && currentExchange.sockets == None
      ensures currentExchange.apiRequests == []
      ensures config.defaultExchangeSite == old(config.defaultExchangeSite)
      ensures checkedExchangeSite == Some(currentExchange.site)
      ensures !reachable ==> statusTitle == offlineLabel && statusIcon == OfflineIcon(old(statusIcon))
      ensures reachable ==> statusTitle == old(statusTitle) && statusIcon == old(statusIcon)
    {
      observing := true;
      var e := new Exchange(config.defaultExchangeSite);
      SetCurrentExchange(e);
      checkedExchangeSite := Some(e.site);
      if !reachable {
        UpdateMenuWithOfflineText();
      }
    }

    /** `applicationWillTerminate`: stop observing, then stop the exchange. */
    method ApplicationWillTerminate()
      modifies this`observing, ExchangeSockets()
      ensures !observing
      ensures currentExchange != null ==> currentExchange.AllDisconnected()
      ensures forall s | s in ExchangeSockets() :: s.written == old(s.written)
    {
      observing := false;
      if currentExchange != null {
        currentExchange.Stop();
      }
    }

    /** The system is going to sleep: stop the exchange. */
    method OnWorkspaceWillSleep()
      modifies ExchangeSockets()
      ensures currentExchange != null ==> currentExchange.AllDisconnected()
      ensures forall s | s in ExchangeSockets() :: s.written == old(s.written)
    {
      if currentExchange != null {
        currentExchange.Stop();
      }
    }

    /** The system woke up: fetch again, streaming or polling as configured. */
    method OnWorkspaceDidWake()
      requires Valid()
      modifies currentExchange, ExchangeSockets()
      ensures Valid()
      ensures currentExchange != null ==>
        currentExchange.availableCurrencyPairs == old(currentExchange.availableCurrencyPairs)
      ensures currentExchange != null && config.isRealTimeUpdateIntervalSelected ==>
        && currentExchange.StreamingFor(config.selectedCurrencyPairs)
        && (forall s | s in old(ExchangeSockets()) :: !s.connected && s.written == old(s.written))
        && currentExchange.apiRequests == old(currentExchange.apiRequests)
        && currentExchange.timerStarts == old(currentExchange.timerStarts)
      ensures currentExchange != null && !config.isRealTimeUpdateIntervalSelected ==>
        && currentExchange.sockets == old(currentExchange.sockets) && unchanged(old(ExchangeSockets()))
        && currentExchange.apiRequests == old(currentExchange.apiRequests) + TickerRequests(config.selectedCurrencyPairs)
        && currentExchange.timerStarts == old(currentExchange.timerStarts) + 1
    {
      if currentExchange != null {
        currentExchange.Fetch(config);
      }
    }

    /**
      The reachability listener: when online, load the exchange's catalog; otherwise stop the
      exchange and show the offline text.
    */
    method OnReachabilityChanged(status: ReachabilityStatus)
      requires Valid()
      modifies currentExchange, ExchangeSockets(), this`statusTitle, this`statusIcon
      ensures Valid()
      ensures currentExchange != null ==>
        && currentExchange.availableCurrencyPairs == old(currentExchange.availableCurrencyPairs)
        && currentExchange.sockets == old(currentExchange.sockets)
        && currentExchange.timerStarts == old(currentExchange.timerStarts)
      ensures IsOnline(status) && currentExchange != null ==>
        currentExchange.apiRequests == old(currentExchange.apiRequests) + [ApiRequest(ProductListAPIPath)]
        && unchanged(old(ExchangeSockets()))
      ensures IsOnline(status) ==> statusTitle == old(statusTitle) && statusIcon == old(statusIcon)
      ensures !IsOnline(status) && currentExchange != null ==>
        && currentExchange.AllDisconnected()
        && (forall s | s in ExchangeSockets() :: s.written == old(s.written))
        && currentExchange.apiRequests == old(currentExchange.apiRequests)
      ensures !IsOnline(status) ==> statusTitle == offlineLabel && statusIcon == OfflineIcon(old(statusIcon))
    {
      if status == ReachableEthernetOrWiFi || status == ReachableWWAN {
        if currentExchange != null {
          currentExchange.Load();
        }
      } else {
        if currentExchange != null {
          currentExchange.Stop();
        }
        UpdateMenuWithOfflineText();
      }
    }

    /** The offline text: the offline label as title, and the bitcoin icon when no image is shown. */
    method UpdateMenuWithOfflineText()
      modifies this`statusTitle, this`statusIcon
      ensures statusTitle == offlineLabel && statusIcon == OfflineIcon(old(statusIcon))
    {
      statusTitle := offlineLabel;
      if statusIcon == None {
        statusIcon := Some(BTC);
      }
    }

    /**
      Selecting an exchange site: the current site changes nothing; another site stops the current
      exchange, moves the check mark, clears the currency menu, and loads a new exchange for it.
    */
    method OnSelectExchangeSite(site: ExchangeSite)
      requires Valid() && currentExchange != null
      modifies this`currentExchange, this`checkedExchangeSite, this`currencyMenuItems,
        config`defaultExchangeSite, ExchangeSockets()
      ensures Valid() && currentExchange != null
      ensures site == old(currentExchange.site) ==>
        currentExchange == old(currentExchange) && checkedExchangeSite == old(checkedExchangeSite)
        && currencyMenuItems == old(currencyMenuItems) && config.defaultExchangeSite == old(config.defaultExchangeSite)
        && unchanged(old(ExchangeSockets()))
      ensures site != old(currentExchange.site) ==>
        && old(currentExchange).AllDisconnected()
        && (forall s | s in old(ExchangeSockets()) :: s.written == old(s.written))
        && fresh(currentExchange) && currentExchange.site == site
        && currentExchange.availableCurrencyPairs == [] && currentExchange.sockets == None
        && currentExchange.apiRequests == [ApiRequest(ProductListAPIPath)]
        && checkedExchangeSite == Some(site) && currencyMenuItems == [] && config.defaultExchangeSite == site
    {
      if site != currentExchange.site {
        currentExchange.Stop();
        checkedExchangeSite := Some(site);
        currencyMenuItems := [];
        var e := new Exchange(site);
        SetCurrentExchange(e);
        e.Load();
      }
    }

    /**
      The catalog response of the current exchange's `load()`: on success the sorted list is
      published to the delegate, which reconciles the selection and rebuilds the menu, and then
      prices are fetched; on failure nothing changes.
    */
    method OnProductListResponse(response: CatalogResponse)
      requires Valid() && currentExchange != null
      requires response.CatalogSuccess? ==>
        currentExchange.availableCurrencyPairs + Accepted(catalog, response.records) != []
      modifies currentExchange, ExchangeSockets(), config`selectedCurrencyPairs,
        this`currencyMenuItems, this`statusIcon, this`statusTitle
      ensures Valid()
      ensures response.CatalogFailure? ==>
        && currentExchange.availableCurrencyPairs == old(currentExchange.availableCurrencyPairs)
        && config.selectedCurrencyPairs == old(config.selectedCurrencyPairs)
        && currentExchange.sockets == old(currentExchange.sockets) && unchanged(old(ExchangeSockets()))
        && currentExchange.apiRequests == old(currentExchange.apiRequests)
        && currentExchange.timerStarts == old(currentExchange.timerStarts)
        && currencyMenuItems == old(currencyMenuItems)
        && statusIcon == old(statusIcon) && statusTitle == old(statusTitle)
      ensures response.CatalogSuccess? ==>
        var available := currentExchange.availableCurrencyPairs;
        && IsSorted(available)
        && multiset(available) == multiset(old(currentExchange.availableCurrencyPairs) + Accepted(catalog, response.records))
        && config.selectedCurrencyPairs ==
             Reconciled(old(config.selectedCurrencyPairs), available, LocalCurrency(catalog, localCurrencyCode))
        && currencyMenuItems == MenuItems(available, config.selectedCurrencyPairs)
        && statusIcon == StatusIcon(config.selectedCurrencyPairs)
        && statusTitle == Title(config.selectedCurrencyPairs, config.prices, loadingLabel, formatPrice)
      ensures response.CatalogSuccess? && config.isRealTimeUpdateIntervalSelected ==>
        && currentExchange.StreamingFor(config.selectedCurrencyPairs)
        && (forall s | s in old(ExchangeSockets()) :: !s.connected && s.written == old(s.written))
        && currentExchange.apiRequests == old(currentExchange.apiRequests)
        && currentExchange.timerStarts == old(currentExchange.timerStarts)
      ensures response.CatalogSuccess? && !config.isRealTimeUpdateIntervalSelected ==>
        && currentExchange.sockets == old(currentExchange.sockets) && unchanged(old(ExchangeSockets()))
        && currentExchange.apiRequests == old(currentExchange.apiRequests) + TickerRequests(config.selectedCurrencyPairs)
        && currentExchange.timerStarts == old(currentExchange.timerStarts) + 1
    {
      var published := currentExchange.ApplyCatalog(catalog, response);
      if published.Some? {
        assert |multiset(published.value)| == |old(currentExchange.availableCurrencyPairs) + Accepted(catalog, response.records)|;
        DidUpdateAvailableCurrencyPairs(published.value);
        currentExchange.Fetch(config);
      }
    }

    /**
      `exchange(_:didUpdateAvailableCurrencyPairs:)`: deselect every selected pair that is no
      longer available, select a default pair if nothing is left, then rebuild the menu.
    */
    method DidUpdateAvailableCurrencyPairs(available: seq<CurrencyPair>)
      requires Valid() && currentExchange != null && available != []
      modifies config`selectedCurrencyPairs, this`currencyMenuItems, this`statusIcon, this`statusTitle
      ensures Valid()
      ensures config.selectedCurrencyPairs ==
        Reconciled(old(config.selectedCurrencyPairs), available, LocalCurrency(catalog, localCurrencyCode))
      ensures currencyMenuItems == MenuItems(currentExchange.availableCurrencyPairs, config.selectedCurrencyPairs)
      ensures statusIcon == StatusIcon(config.selectedCurrencyPairs)
      ensures statusTitle == Title(config.selectedCurrencyPairs, config.prices, loadingLabel, formatPrice)
    {
      DeselectUnavailable(available);
      if |config.selectedCurrencyPairs| == 0 {
        var local := LocalCurrency(catalog, localCurrencyCode);
        var choice := if local.Some? then FirstQuotedIn(available, local.value.code) else None;
        if choice.None? {
          choice := FirstQuotedIn(available, "USD");
          if choice.None? {
            choice := Some(0);
          }
        }
        assert choice.value == DefaultIndex(available, local);
        config.Toggle(available[choice.value]);
      }
      UpdateMenuItems();
    }

    /** The `forEach` over a snapshot of the selection: deselect each pair no longer available. */
    method DeselectUnavailable(available: seq<CurrencyPair>)
      requires config.Valid()
      modifies config`selectedCurrencyPairs
      ensures config.Valid()
      ensures config.selectedCurrencyPairs == Prune(old(config.selectedCurrencyPairs), available)
    {
      var snapshot := config.selectedCurrencyPairs;
      var i := 0;
      while i < |snapshot|
        invariant 0 <= i <= |snapshot|
        invariant config.Valid()
        invariant config.selectedCurrencyPairs == Prune(snapshot[..i], available) + snapshot[i..]
      {
        if !Contains(available, snapshot[i]) {
          DeselectStep(snapshot, available, i);
          config.Deselect(snapshot[i]);
        } else {
          KeepStep(snapshot, available, i);
        }
        i := i + 1;
      }
      assert snapshot[..i] == snapshot && snapshot[i..] == [];
    }

    /**
      `updateMenuItems`: one entry per base currency in order of first appearance, each with one
      submenu entry per pair, checked as the selection says; the status icon; then the prices.
    */
    method UpdateMenuItems()
      requires currentExchange != null
      modifies this`currencyMenuItems, this`statusIcon, this`statusTitle
      ensures currencyMenuItems == MenuItems(currentExchange.availableCurrencyPairs, config.selectedCurrencyPairs)
      ensures statusIcon == StatusIcon(config.selectedCurrencyPairs)
      ensures statusTitle == Title(config.selectedCurrencyPairs, config.prices, loadingLabel, formatPrice)
    {
      var available := currentExchange.availableCurrencyPairs;
      var selected := config.selectedCurrencyPairs;
      currencyMenuItems := [];
      var menuItemMap: map<Currency, nat> := map[];
      var i := 0;
      while i < |available|
        invariant 0 <= i <= |available|
        invariant currencyMenuItems == MenuItems(available[..i], selected)
        invariant forall b :: b in menuItemMap <==> b in DistinctBases(available[..i])
        invariant forall b | b in menuItemMap ::
          menuItemMap[b] < |DistinctBases(available[..i])| && DistinctBases(available[..i])[menuItemMap[b]] == b
      {
        var p := available[i];
        assert available[..i + 1] == available[..i] + [p];
        if p.baseCurrency in menuItemMap {
          var k := menuItemMap[p.baseCurrency];
          MenuItemsSnocKnownBase(available[..i], p, selected, k);
          var item := currencyMenuItems[k];
          currencyMenuItems := currencyMenuItems[k := item.(submenu := item.submenu + [QuoteItemFor(p, selected)])];
        } else {
          MenuItemsSnocNewBase(available[..i], p, selected);
          menuItemMap := menuItemMap[p.baseCurrency := |currencyMenuItems|];
          currencyMenuItems := currencyMenuItems +
            [BaseItem(p.baseCurrency, WatchingBase(selected, p.baseCurrency), [QuoteItemFor(p, selected)])];
        }
        i := i + 1;
      }
      assert available[..i] == available;
      if |selected| == 1 {
        statusIcon := Some(selected[0].baseCurrency);
      } else {
        statusIcon := None;
      }
      UpdatePrices();
    }

    /** `updatePrices`: the title from the selected pairs and their cached prices. */
    method UpdatePrices()
      modifies this`statusTitle
      ensures statusTitle == Title(config.selectedCurrencyPairs, config.prices, loadingLabel, formatPrice)
    {
      statusTitle := Title(config.selectedCurrencyPairs, config.prices, loadingLabel, formatPrice);
    }
  }

  /** The image after the offline text: the current one, or the bitcoin icon when there is none. */
  function OfflineIcon(icon: Option<Currency>): (r: Option<Currency>)
    ensures r.Some?
    ensures icon.Some? ==> r == icon
  {
    if icon.None? then Some(BTC) else icon
  }
}
