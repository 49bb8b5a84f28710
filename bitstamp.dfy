/**
  The Bitstamp exchange backend: decoding of the trading-pair catalog, the acquisition plan
  (one Pusher socket per selected pair when real-time updates are selected, one ticker request
  per selected pair otherwise) and its teardown.
*/
module Bitstamp {
  import opened Pairs
  import opened Text
  import opened Config

  const WebSocketURL := "wss://ws.pusherapp.com/app/de504dc5763aeef9ff52?protocol=7"
  const ProductListAPIPath := "https://www.bitstamp.net/api/v2/trading-pairs-info/"
  /** The ticker path format is this prefix, the product id, then a slash. */
  const TickerAPIPathPrefix := "https://www.bitstamp.net/api/v2/ticker/"

  /** The ticker request path for one product id. */
  function TickerAPIPath(productId: string): (path: string)
    ensures |path| == |TickerAPIPathPrefix| + |productId| + 1
    ensures path[..|TickerAPIPathPrefix|] == TickerAPIPathPrefix && path[|path| - 1] == '/'
    ensures path[|TickerAPIPathPrefix|..|path| - 1] == productId
  {
    TickerAPIPathPrefix + productId + "/"
  }

  /** Distinct product ids are polled at distinct paths. */
  lemma TickerAPIPathInjective(a: string, b: string)
    requires TickerAPIPath(a) == TickerAPIPath(b)
    ensures a == b
  {
    var pa, pb := TickerAPIPath(a), TickerAPIPath(b);
    assert a == pa[|TickerAPIPathPrefix|..|pa| - 1];
  }

  predicate IsBtcUsd(p: CurrencyPair)
  {
    p.baseCurrency.code == "BTC" && p.quoteCurrency.code == "USD"
  }

  /** The Pusher channel carrying the trades of a pair. */
  function ChannelName(p: CurrencyPair): (name: string)
    ensures |name| >= 11 && name[..11] == "live_trades"
    ensures name == "live_trades" <==> IsBtcUsd(p)
    ensures !IsBtcUsd(p) ==> name[11] == '_' && name[12..] == p.customCode
  {
    var channelName := "live_trades";
    if !IsBtcUsd(p) then channelName + "_" + p.customCode else channelName
  }

  /** An outbound Pusher event naming a channel. */
  datatype PusherEvent = PusherEvent(event: string, channel: string)

  /** The subscription a socket sends once connected. */
  function SubscribeEvent(p: CurrencyPair): PusherEvent
  {
    PusherEvent("pusher:subscribe", ChannelName(p))
  }

  /** An inbound socket message, already decoded: its event and the price its data carries. */
  datatype InboundMessage = InboundMessage(event: string, price: real)

  /** One entry of the trading-pair catalog, already decoded. */
  datatype CatalogRecord = CatalogRecord(name: string, urlSymbol: string)

  datatype CatalogResponse = CatalogSuccess(records: seq<CatalogRecord>) | CatalogFailure

  /** The completion of one ticker request: the `last` price or a failure. */
  datatype TickerResponse = TickerSuccess(last: real) | TickerFailure

  datatype ApiRequest = ApiRequest(path: string)

  /** The pair a catalog record describes, if the ticker accepts it. */
  function DecodeRecord(catalog: Catalog, r: CatalogRecord): Option<CurrencyPair>
  {
    var codes := Split(r.name, '/');
    if |codes| == 2 then
      match BuildPair(catalog, codes[0], codes[|codes| - 1], r.urlSymbol)
      case Some(p) => if p.baseCurrency.isCrypto then Some(p) else None
      case None => None
    else None
  }

  /**
    A record is accepted exactly when its name splits into two pieces, both known currencies, the
    first a crypto asset; the pair then has those currencies and the record's url symbol.
  */
  lemma DecodeRecordAccepts(catalog: Catalog, r: CatalogRecord)
    ensures var codes := Split(r.name, '/');
      DecodeRecord(catalog, r).Some? <==>
        |codes| == 2 && codes[0] in catalog && codes[1] in catalog && catalog[codes[0]]
    ensures var codes := Split(r.name, '/');
      DecodeRecord(catalog, r).Some? ==>
        var p := DecodeRecord(catalog, r).value;
        p.baseCurrency == Currency(codes[0], true) && p.quoteCurrency.code == codes[1]
        && p.customCode == r.urlSymbol
        && IsPiece(p.baseCurrency.code, '/') && IsPiece(p.quoteCurrency.code, '/')
  {
    SplitPieces(r.name, '/');
    var codes := Split(r.name, '/');
    if |codes| == 2 {
      assert codes[0] in codes && codes[1] in codes;
    }
  }

  /** A `base/quote` name of two known codes with a crypto base is decoded to that pair. */
  lemma DecodeWellFormedRecord(catalog: Catalog, base: string, quote: string, symbol: string)
    requires IsPiece(base, '/') && IsPiece(quote, '/')
    requires base in catalog && quote in catalog && catalog[base]
    ensures DecodeRecord(catalog, CatalogRecord(base + "/" + quote, symbol))
      == Some(CurrencyPair(Currency(base, true), Currency(quote, catalog[quote]), symbol))
  {
    assert Join([base, quote], ['/']) == base + "/" + quote;
    SplitJoin([base, quote], '/');
  }

  /** The pairs accepted from a list of catalog records, in record order. */
  function Accepted(catalog: Catalog, records: seq<CatalogRecord>): (r: seq<CurrencyPair>)
    ensures forall i | 0 <= i < |r| :: r[i].baseCurrency.isCrypto
    ensures |r| <= |records|
  {
    if records == [] then []
    else
      var last := records[|records| - 1];
      Accepted(catalog, records[..|records| - 1])
      + match DecodeRecord(catalog, last) case Some(p) => [p] case None => []
  }

  /** Exactly the pairs decoded from some record are accepted. */
  lemma {:induction false} AcceptedMembers(catalog: Catalog, records: seq<CatalogRecord>)
    ensures forall x :: x in Accepted(catalog, records) <==>
      exists i | 0 <= i < |records| :: DecodeRecord(catalog, records[i]) == Some(x)
  {
    if records != [] {
      var init := records[..|records| - 1];
      AcceptedMembers(catalog, init);
      forall x ensures x in Accepted(catalog, records) <==>
        exists i | 0 <= i < |records| :: DecodeRecord(catalog, records[i]) == Some(x)
      {
        if x in Accepted(catalog, records) && x !in Accepted(catalog, init) {
          assert DecodeRecord(catalog, records[|records| - 1]) == Some(x);
        }
        if exists i | 0 <= i < |records| :: DecodeRecord(catalog, records[i]) == Some(x) {
          var i :| 0 <= i < |records| && DecodeRecord(catalog, records[i]) == Some(x);
          if i < |records| - 1 {
            assert init[i] == records[i];
          }
        }
      }
    }
  }

  lemma AcceptedSnoc(catalog: Catalog, records: seq<CatalogRecord>, i: nat)
    requires i < |records|
    ensures Accepted(catalog, records[..i + 1]) == Accepted(catalog, records[..i])
      + match DecodeRecord(catalog, records[i]) case Some(p) => [p] case None => []
  {
    assert records[..i + 1][..i] == records[..i];
  }

  predicate AllCrypto(s: seq<CurrencyPair>)
  {
    forall i | 0 <= i < |s| :: s[i].baseCurrency.isCrypto
  }

  lemma AllCryptoPermutation(a: seq<CurrencyPair>, b: seq<CurrencyPair>)
    requires AllCrypto(a) && multiset(a) == multiset(b)
    ensures AllCrypto(b)
  {
    forall k | 0 <= k < |b| ensures b[k].baseCurrency.isCrypto {
      assert b[k] in multiset(a);
      var j :| 0 <= j < |a| && a[j] == b[k];
    }
  }

  /** The ticker requests polling issues for a selection, in selection order. */
  function TickerRequests(selected: seq<CurrencyPair>): seq<ApiRequest>
  {
    if selected == [] then []
    else
      TickerRequests(selected[..|selected| - 1])
      + [ApiRequest(TickerAPIPath(selected[|selected| - 1].customCode))]
  }

  /** One request per selected pair, each for that pair's ticker path. */
  lemma {:induction false} TickerRequestsOnePerPair(selected: seq<CurrencyPair>)
    ensures |TickerRequests(selected)| == |selected|
    ensures forall k | 0 <= k < |selected| ::
      TickerRequests(selected)[k] == ApiRequest(TickerAPIPath(selected[k].customCode))
  {
    if selected != [] {
      var init := selected[..|selected| - 1];
      TickerRequestsOnePerPair(init);
      forall k | 0 <= k < |selected| - 1
        ensures TickerRequests(selected)[k] == ApiRequest(TickerAPIPath(selected[k].customCode))
      {
        assert init[k] == selected[k];
      }
    }
  }

  /** A Pusher web socket: the pair its callbacks serve, whether it is connected, what it has written. */
  class WebSocket {
    const url: string
    const pair: CurrencyPair
    var connected: bool
    var written: seq<PusherEvent>

    constructor (url: string, pair: CurrencyPair)
      ensures this.url == url && this.pair == pair
      ensures !connected && written == []
    {
      this.url := url;
      this.pair := pair;
      connected := false;
      written := [];
    }

    method Connect()
      modifies this
      ensures connected && written == old(written)
    {
      connected := true;
    }

    method Disconnect()
      modifies this
      ensures !connected && written == old(written)
    {
      connected := false;
    }

    method Write(e: PusherEvent)
      modifies this
      ensures written == old(written) + [e] && connected == old(connected)
    {
      written := written + [e];
    }
  }

  /** The `onConnect` handler: subscribe to the socket's pair's trade channel. */
  method OnConnect(socket: WebSocket)
    modifies socket
    ensures socket.written == old(socket.written) + [PusherEvent("pusher:subscribe", ChannelName(socket.pair))]
    ensures socket.connected == old(socket.connected)
  {
    socket.Write(SubscribeEvent(socket.pair));
  }

  /** The `onText` handler: only a `trade` event updates the socket's pair's price. */
  method OnText(config: TickerConfig, socket: WebSocket, message: InboundMessage)
    modifies config`prices
    ensures message.event == "trade" ==> PriceOf(config.prices, socket.pair) == message.price
    ensures forall q :: Key(q) != Key(socket.pair) ==> PriceOf(config.prices, q) == PriceOf(old(config.prices), q)
    ensures message.event != "trade" ==> config.prices == old(config.prices)
  {
    if message.event == "trade" {
      config.SetPrice(message.price, socket.pair);
    }
  }

  /** The completion of one ticker request: success caches the `last` price, failure changes nothing. */
  method OnTickerResponse(config: TickerConfig, pair: CurrencyPair, response: TickerResponse)
    modifies config`prices
    ensures response.TickerSuccess? ==> PriceOf(config.prices, pair) == response.last
    ensures forall q :: Key(q) != Key(pair) ==> PriceOf(config.prices, q) == PriceOf(old(config.prices), q)
    ensures response.TickerFailure? ==> config.prices == old(config.prices)
  {
    match response
    case TickerSuccess(last) => config.SetPrice(last, pair);
    case TickerFailure =>
  }

  class Exchange {
    const site: ExchangeSite
    var availableCurrencyPairs: seq<CurrencyPair>
    /** The Swift optional socket array: none until the first real-time fetch. */
    var sockets: Option<seq<WebSocket>>
    /** Every request issued, in order. */
    var apiRequests: seq<ApiRequest>
    /** How many times the polling timer was started. */
    var timerStarts: nat

    /** No pair with a non-crypto base is ever available. */
    ghost predicate Valid()
      reads this
    {
      AllCrypto(availableCurrencyPairs)
    }

    function SocketSet(): set<WebSocket>
      reads this
    {
      if sockets.Some? then set s | s in sockets.value else {}
    }

    ghost predicate AllDisconnected()
      reads this, SocketSet()
    {
      forall s | s in SocketSet() :: !s.connected
    }

    /** The sockets are exactly one connected, not yet written socket per selected pair, in order. */
    ghost predicate StreamingFor(selected: seq<CurrencyPair>)
      reads this, SocketSet()
    {
      sockets.Some? && |sockets.value| == |selected|
      && forall k | 0 <= k < |selected| ::
        sockets.value[k].pair == selected[k] && sockets.value[k].url == WebSocketURL
        && sockets.value[k].connected && sockets.value[k].written == []
    }

    constructor (site: ExchangeSite)
      ensures Valid()
      ensures this.site == site && availableCurrencyPairs == [] && sockets == None
      ensures apiRequests == [] && timerStarts == 0
    {
      this.site := site;
      availableCurrencyPairs := [];
      sockets := None;
      apiRequests := [];
      timerStarts := 0;
    }

    /** `load()`: issue the one catalog request. */
    method Load()
      modifies this`apiRequests
      ensures apiRequests == old(apiRequests) + [ApiRequest(ProductListAPIPath)]
    {
      apiRequests := apiRequests + [ApiRequest(ProductListAPIPath)];
    }

    /**
      The catalog response: on success, append every accepted record's pair, sort the list and
      return it for the delegate; on failure change nothing and return none.
    */
    method ApplyCatalog(catalog: Catalog, response: CatalogResponse) returns (published: Option<seq<CurrencyPair>>)
      requires Valid()
      modifies this`availableCurrencyPairs
      ensures Valid()
      ensures response.CatalogFailure? ==> published == None && availableCurrencyPairs == old(availableCurrencyPairs)
      ensures response.CatalogSuccess? ==> published == Some(availableCurrencyPairs)
      ensures response.CatalogSuccess? ==> IsSorted(availableCurrencyPairs)
      ensures response.CatalogSuccess? ==>
        multiset(availableCurrencyPairs) == multiset(old(availableCurrencyPairs) + Accepted(catalog, response.records))
    {
      match response
      case CatalogFailure =>
        published := None;
      case CatalogSuccess(records) =>
        AppendAccepted(catalog, records);
        var unsorted := availableCurrencyPairs;
        assert AllCrypto(unsorted);
        SortPairsSortsAndPermutes(unsorted);
        availableCurrencyPairs := SortPairs(unsorted);
        AllCryptoPermutation(unsorted, availableCurrencyPairs);
        published := Some(availableCurrencyPairs);
    }

    /** The `forEach` over the catalog: append each accepted record's pair, in record order. */
    method AppendAccepted(catalog: Catalog, records: seq<CatalogRecord>)
      modifies this`availableCurrencyPairs
      ensures availableCurrencyPairs == old(availableCurrencyPairs) + Accepted(catalog, records)
    {
      var i := 0;
      while i < |records|
        invariant 0 <= i <= |records|
        invariant availableCurrencyPairs == old(availableCurrencyPairs) + Accepted(catalog, records[..i])
      {
        AcceptedSnoc(catalog, records, i);
        var decoded := DecodeRecord(catalog, records[i]);
        if decoded.Some? {
          availableCurrencyPairs := availableCurrencyPairs + [decoded.value];
        }
        i := i + 1;
      }
      assert records[..i] == records;
    }

    /** Disconnect every socket held; nothing else changes. */
    method DisconnectSockets()
      modifies SocketSet()
      ensures forall s | s in SocketSet() :: !s.connected && s.written == old(s.written)
      ensures old(AllDisconnected()) ==> forall s | s in SocketSet() :: s.connected == old(s.connected)
    {
      if sockets.Some? {
        var all := sockets.value;
        var i := 0;
        while i < |all|
          invariant 0 <= i <= |all|
          invariant forall k | 0 <= k < i :: !all[k].connected
          invariant forall s | s in SocketSet() :: s.written == old(s.written)
          invariant forall s | s in SocketSet() :: !old(s.connected) ==> !s.connected
        {
          all[i].Disconnect();
          i := i + 1;
        }
      }
    }

    /** `stop()`: every socket ends disconnected; stopping again changes nothing. */
    method Stop()
      modifies SocketSet()
      ensures AllDisconnected()
      ensures forall s | s in SocketSet() :: s.written == old(s.written)
      ensures old(AllDisconnected()) ==> forall s | s in SocketSet() :: s.connected == old(s.connected)
    {
      DisconnectSockets();
    }

    /**
      `fetch()`: with real-time updates, disconnect every held socket and replace them with one
      new connected socket per selected pair, in selection order; otherwise issue one ticker
      request per selected pair and start the polling timer, leaving the sockets alone.
    */
    method Fetch(config: TickerConfig)
      requires Valid()
      modifies this`sockets, this`apiRequests, this`timerStarts, SocketSet()
      ensures Valid()
      ensures config.isRealTimeUpdateIntervalSelected ==>
        && (forall s | s in old(SocketSet()) :: !s.connected && s.written == old(s.written))
        && StreamingFor(config.selectedCurrencyPairs)
        && (forall k | 0 <= k < |sockets.value| :: fresh(sockets.value[k]))
        && apiRequests == old(apiRequests) && timerStarts == old(timerStarts)
      ensures !config.isRealTimeUpdateIntervalSelected ==>
        && sockets == old(sockets) && unchanged(old(SocketSet()))
        && apiRequests == old(apiRequests) + TickerRequests(config.selectedCurrencyPairs)
        && timerStarts == old(timerStarts) + 1
    {
      if config.isRealTimeUpdateIntervalSelected {
        DisconnectSockets();
        OpenSockets(config.selectedCurrencyPairs);
      } else {
        RequestTickers(config.selectedCurrencyPairs);
        timerStarts := timerStarts + 1;
      }
    }

    /** The streaming half of `fetch()` after the old sockets are disconnected: one new socket per pair. */
    method OpenSockets(selected: seq<CurrencyPair>)
      modifies this`sockets
      ensures sockets.Some? && |sockets.value| == |selected|
      ensures forall k | 0 <= k < |selected| ::
        fresh(sockets.value[k]) && sockets.value[k].pair == selected[k]
        && sockets.value[k].url == WebSocketURL && sockets.value[k].connected && sockets.value[k].written == []
    {
      sockets := Some([]);
      var i := 0;
      while i < |selected|
        invariant 0 <= i <= |selected|
        invariant sockets.Some? && |sockets.value| == i
        invariant forall k | 0 <= k < i ::
          fresh(sockets.value[k]) && sockets.value[k].pair == selected[k]
          && sockets.value[k].url == WebSocketURL && sockets.value[k].connected && sockets.value[k].written == []
      {
        var socket := new WebSocket(WebSocketURL, selected[i]);
        socket.Connect();
        sockets := Some(sockets.value + [socket]);
        i := i + 1;
      }
    }

    /** The polling half of `fetch()`: one ticker request per pair, in order. */
    method RequestTickers(selected: seq<CurrencyPair>)
      modifies this`apiRequests
      ensures apiRequests == old(apiRequests) + TickerRequests(selected)
    {
      var i := 0;
      while i < |selected|
        invariant 0 <= i <= |selected|
        invariant apiRequests == old(apiRequests) + TickerRequests(selected[..i])
      {
        assert selected[..i + 1][..i] == selected[..i];
        apiRequests := apiRequests + [ApiRequest(TickerAPIPath(selected[i].customCode))];
        i := i + 1;
      }
      assert selected[..i] == selected;
    }
  }
}
