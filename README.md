# CoinTicker core: the Bitstamp backend and the application delegate

CoinTicker is a macOS status-bar ticker. It shows the latest prices of the currency pairs the
user selects, taken from one exchange at a time. This project models two parts of it in Dafny
and proves properties of the model:

- **The Bitstamp backend** (`BitstampExchange`):
  - how it reads the trading-pair catalog;
  - how it plans price updates: one Pusher socket per selected pair in real-time mode, or one
    ticker request per selected pair in polling mode;
  - how it stops its sockets.
- **The application delegate** (`AppDelegate`):
  - how it reconciles the selection when the exchange publishes its pairs;
  - how it builds the currency menu and the status icon;
  - how it composes the status title;
  - how it switches exchanges and reacts to network, sleep, wake and termination events.

Modules, one per file:

| file | module | contents |
|---|---|---|
| `pairs.dfy` | `Pairs` | Currencies and pairs; pair identity; the order that `sorted()` uses; the sort, proved to sort and to permute. |
| `text.dfy` | `Text` | Swift's `split(separator:)`, which omits empty pieces, and `joined(separator:)`. |
| `ticker_config.dfy` | `Config` | The slice of `TickerConfig` the core uses, as a class: the ordered selection, the price cache, the real-time flag and the default site. |
| `bitstamp.dfy` | `Bitstamp` | The backend as a class `Exchange`, whose methods update its fields; sockets as objects of a class `WebSocket`; the catalog decoding, channel naming and request paths as functions. |
| `selection.dfy` | `Selection` | What reconciliation computes: pruning and the default pair. |
| `menu.dfy` | `Menu` | What the menu and title show, as functions of the pairs, the selection and the prices. |
| `app_delegate.dfy` | `App` | The delegate as a class whose methods run the source's loops and are proved against `Selection` and `Menu`. |

Pair identity is the pair of base and quote codes: `contains`, `deselect`, `toggle` and the
price cache all use it, and the backend identifier (`customCode`) takes no part in it.
`CurrencyPair.swift`, `Currency.swift`, `TickerConfig.swift` and `Exchange.swift` are not part of
this model. Their behaviour is modelled only as far as the two core files rely on it.

When the catalog arrives, `BitstampExchange.load` does three things: it sorts the list, hands it
to the delegate, and then fetches prices. The model keeps that order in
`App.AppDelegate.OnProductListResponse`, in three steps:

1. `Bitstamp.Exchange.ApplyCatalog` appends the accepted pairs, sorts the list and returns what
   is published.
2. `App.AppDelegate.DidUpdateAvailableCurrencyPairs` reconciles the selection and rebuilds the
   menu.
3. `Bitstamp.Exchange.Fetch` fetches prices for the reconciled selection.

The backend does not de-duplicate the catalog, although a catalog of trading pairs would be
expected to list each pair once. `BitstampExchange.swift:51-58` appends every accepted record to
the list it already holds and only sorts it. The model follows that code: a repeated record, or
a second successful load, leaves duplicates in the list.

## Model

| member | source | states |
|---|---|---|
| Pairs.BuildPair | CoinTicker/Source/Exchanges/BitstampExchange.swift:53 | A pair is built exactly when both codes are known currencies; it carries those codes, the base's crypto flag and the backend identifier. |
| Pairs.Without | CoinTicker/AppDelegate.swift:257-261 | Deselecting keeps exactly the entries of a different pair, never leaves the pair behind and never grows the list. |
| Pairs.WithoutKeepsUnique | CoinTicker/AppDelegate.swift:259 | Deselecting keeps the selection free of repeated pairs. |
| Pairs.LexLeqTotal | CoinTicker/Source/Exchanges/BitstampExchange.swift:58 | Any two codes are comparable under the string order. |
| Pairs.LexLeqAntisymmetric | CoinTicker/Source/Exchanges/BitstampExchange.swift:58 | Two codes ordered both ways are equal. |
| Pairs.LexLeqTransitive | CoinTicker/Source/Exchanges/BitstampExchange.swift:58 | The string order is transitive. |
| Pairs.PairLeqTotal | CoinTicker/Source/Exchanges/BitstampExchange.swift:58 | Any two pairs are comparable by base code, then quote code. |
| Pairs.PairLeqTransitive | CoinTicker/Source/Exchanges/BitstampExchange.swift:58 | The pair order is transitive. |
| Pairs.PairOrderMatchesIdentity | CoinTicker/Source/Exchanges/BitstampExchange.swift:58 | Two pairs are ordered both ways exactly when they are the same pair. |
| Pairs.InsertPermutes | CoinTicker/Source/Exchanges/BitstampExchange.swift:58 | Inserting a pair into a list adds exactly that pair to the list's multiset. |
| Pairs.InsertSorted | CoinTicker/Source/Exchanges/BitstampExchange.swift:58 | Inserting into a sorted list keeps it sorted. |
| Pairs.SortPairsSortsAndPermutes | CoinTicker/Source/Exchanges/BitstampExchange.swift:58 | `sorted()` returns a sorted list with exactly the same pairs, repeats included. |
| Text.SplitPieces | CoinTicker/Source/Exchanges/BitstampExchange.swift:52 | Every piece of `split(separator:)` is non-empty and holds no separator. |
| Text.SplitJoin | CoinTicker/Source/Exchanges/BitstampExchange.swift:52 | Splitting pieces joined with the separator gives back the same pieces. |
| Text.SplitOmitsEmptyPieces | CoinTicker/Source/Exchanges/BitstampExchange.swift:52 | A doubled separator splits like a single one, because empty pieces are omitted. |
| Config.TickerConfig.Toggle | CoinTicker/AppDelegate.swift:277 | Toggling removes a selected pair and appends an unselected one; the selection stays free of repeats. |
| Config.TickerConfig.Deselect | CoinTicker/AppDelegate.swift:259 | Deselecting removes the pair and keeps the rest in order. |
| Config.TickerConfig.SetPrice | CoinTicker/Source/Exchanges/BitstampExchange.swift:103 | The pair's cached price becomes the given price; every other pair keeps its price. |
| Bitstamp.TickerAPIPath | CoinTicker/Source/Exchanges/BitstampExchange.swift:37 | The ticker path is the API prefix, the product id, then a slash. |
| Bitstamp.TickerAPIPathInjective | CoinTicker/Source/Exchanges/BitstampExchange.swift:113 | Different product ids are polled at different paths. |
| Bitstamp.ChannelName | CoinTicker/Source/Exchanges/BitstampExchange.swift:82-85 | The channel is `live_trades` exactly for BTC/USD; for every other pair it is `live_trades_` followed by the product id. |
| Bitstamp.DecodeRecordAccepts | CoinTicker/Source/Exchanges/BitstampExchange.swift:52-53 | A catalog record is accepted exactly when its name splits on `/` into two known codes with a crypto base. The pair then has those codes and the record's `url_symbol`. |
| Bitstamp.DecodeWellFormedRecord | CoinTicker/Source/Exchanges/BitstampExchange.swift:52-53 | A record named `<base>/<quote>`, with a known crypto base and a known quote, decodes to exactly that pair. |
| Bitstamp.Accepted | CoinTicker/Source/Exchanges/BitstampExchange.swift:51-56 | Every accepted pair has a crypto base; there are never more pairs than records. |
| Bitstamp.AcceptedMembers | CoinTicker/Source/Exchanges/BitstampExchange.swift:51-56 | A pair is accepted exactly when some record decodes to it. |
| Bitstamp.AllCryptoPermutation | CoinTicker/Source/Exchanges/BitstampExchange.swift:58 | Sorting keeps every base crypto. |
| Bitstamp.TickerRequestsOnePerPair | CoinTicker/Source/Exchanges/BitstampExchange.swift:111-122 | Polling issues one request per selected pair, in selection order, each at that pair's ticker path. |
| Bitstamp.WebSocket.Connect | CoinTicker/Source/Exchanges/BitstampExchange.swift:107 | Connecting sets the connected flag and writes nothing. |
| Bitstamp.WebSocket.Disconnect | CoinTicker/Source/Exchanges/BitstampExchange.swift:69 | Disconnecting clears the connected flag and writes nothing. |
| Bitstamp.WebSocket.Write | CoinTicker/Source/Exchanges/BitstampExchange.swift:95 | Writing appends one event. |
| Bitstamp.OnConnect | CoinTicker/Source/Exchanges/BitstampExchange.swift:81-97 | Once connected, a socket sends one `pusher:subscribe` event for its pair's channel. |
| Bitstamp.OnText | CoinTicker/Source/Exchanges/BitstampExchange.swift:99-105 | A `trade` event sets the socket's pair to the traded price; any other event changes no price; no other pair's price ever changes. |
| Bitstamp.OnTickerResponse | CoinTicker/Source/Exchanges/BitstampExchange.swift:115-120 | A successful ticker response sets the pair's price to `last`; a failure changes nothing. |
| Bitstamp.Exchange.constructor | CoinTicker/Source/Exchanges/BitstampExchange.swift:42-44 | A new backend has its site, no pairs, no sockets and no requests. |
| Bitstamp.Exchange.Load | CoinTicker/Source/Exchanges/BitstampExchange.swift:46-48 | `load()` issues one catalog request. |
| Bitstamp.Exchange.ApplyCatalog | CoinTicker/Source/Exchanges/BitstampExchange.swift:49-63 | On failure nothing changes and nothing is published. On success the list becomes sorted, holds exactly the old pairs plus the accepted ones, still has only crypto bases, and is published. |
| Bitstamp.Exchange.AppendAccepted | CoinTicker/Source/Exchanges/BitstampExchange.swift:51-56 | The loop appends exactly the accepted pairs, in record order. |
| Bitstamp.Exchange.DisconnectSockets | CoinTicker/Source/Exchanges/BitstampExchange.swift:69 | Every held socket ends disconnected and nothing is written; if all were already disconnected, nothing changes. |
| Bitstamp.Exchange.Stop | CoinTicker/Source/Exchanges/BitstampExchange.swift:67-70 | After `stop()` no socket is connected; stopping again changes nothing. |
| Bitstamp.Exchange.Fetch | CoinTicker/Source/Exchanges/BitstampExchange.swift:72-126 | Real-time mode: the old sockets are disconnected and replaced by new, connected sockets, one per selected pair, in selection order, at the Pusher URL; no request is issued. Polling mode: the sockets are untouched, one ticker request per selected pair is appended, and the timer is started once. |
| Bitstamp.Exchange.OpenSockets | CoinTicker/Source/Exchanges/BitstampExchange.swift:75-109 | One new connected socket per pair, in order, for that pair, at the Pusher URL. |
| Bitstamp.Exchange.RequestTickers | CoinTicker/Source/Exchanges/BitstampExchange.swift:111-122 | The loop appends one ticker request per pair, in order. |
| Selection.PruneMembers | CoinTicker/AppDelegate.swift:257-261 | A pair survives pruning exactly when it was selected and is still available. |
| Selection.PruneKeepsOrder | CoinTicker/AppDelegate.swift:257-261 | The survivors keep their selection order. |
| Selection.PruneAllAvailable | CoinTicker/AppDelegate.swift:257-261 | Pruning a selection whose pairs are all available changes nothing. |
| Selection.DeselectStep | CoinTicker/AppDelegate.swift:257-261 | Deselecting an unavailable pair during the loop leaves the pruned prefix followed by the pairs not yet visited. |
| Selection.FirstQuotedIn | CoinTicker/AppDelegate.swift:266 | `first(where:)` finds the first pair with that quote, and finds none exactly when no pair has it. |
| Selection.DefaultIndex | CoinTicker/AppDelegate.swift:263-275 | The default pair is the first one quoted in the local currency; if there is none, the first quoted in USD; if there is none, the first pair. |
| Selection.ReconciledSpec | CoinTicker/AppDelegate.swift:256-278 | After reconciliation the selection is non-empty and wholly available. If any selection survives, the result is exactly the survivors, in order, with nothing added; otherwise it is the single default pair. |
| Selection.ReconciledIdempotent | CoinTicker/AppDelegate.swift:256-278 | Reconciling twice against the same list is the same as reconciling once. |
| Menu.DistinctBasesSpec | CoinTicker/AppDelegate.swift:195-208 | The menu has one entry per base currency of the available pairs, none twice, in order of first appearance. |
| Menu.QuoteItemsAbsent | CoinTicker/AppDelegate.swift:210-212 | A base with no pair has an empty submenu. |
| Menu.EveryPairListedOnce | CoinTicker/AppDelegate.swift:197-213 | Across all submenus, every available pair appears exactly once. |
| Menu.MenuItemsSnocNewBase | CoinTicker/AppDelegate.swift:201-212 | A pair with a new base adds a base entry at the end, checked when that base is watched, holding only its quote. |
| Menu.MenuItemsSnocKnownBase | CoinTicker/AppDelegate.swift:199-212 | A pair with a known base appends its quote, checked when that pair is watched, to that base's submenu. |
| Menu.StatusIcon | CoinTicker/AppDelegate.swift:215-221 | The icon is shown exactly when one pair is selected, and it is that pair's base currency. |
| Menu.SegmentFor | CoinTicker/AppDelegate.swift:228-245 | A price shows as the loading label exactly when it is not positive. Otherwise it is formatted in the quote currency, with 5 fraction digits exactly when it is below 1 and 2 otherwise. The `<base>: ` prefix is present exactly when more than one pair is selected. |
| Menu.TitleSegments | CoinTicker/AppDelegate.swift:228-246 | One segment per selected pair, in selection order. A segment shows the loading label exactly when the pair's cached price is not positive. Otherwise it shows that price in the pair's quote currency, with 5 fraction digits exactly when the price is below 1 and 2 otherwise. It carries the `<base>: ` prefix exactly when more than one pair is selected. |
| Menu.JoinSpec | CoinTicker/AppDelegate.swift:248 | Joining nothing gives the empty string, and joining one text gives that text; a longer join is the join of all but the last, the separator, then the last. |
| Menu.TitleSinglePair | CoinTicker/AppDelegate.swift:241-248 | With one pair selected the title is its price text alone; with none the title is empty. |
| Menu.TitleExtends | CoinTicker/AppDelegate.swift:248 | With two or more pairs the title is the earlier segments joined, then ` • `, then the last segment. |
| App.OfflineIcon | CoinTicker/AppDelegate.swift:121-123 | Offline, an image is always shown: the current one, or the bitcoin icon when there is none. |
| App.AppDelegate.constructor | CoinTicker/AppDelegate.swift:40-50 | A new delegate is valid, with no exchange, no currency menu items, an empty title and no image, and it does not yet observe sleep and wake. |
| App.AppDelegate.SetCurrentExchange | CoinTicker/AppDelegate.swift:46-50 | Assigning the current exchange records its site as the default site. |
| App.AppDelegate.ApplicationDidFinishLaunching | CoinTicker/AppDelegate.swift:53-101 | Launch observes sleep and wake and builds a fresh exchange for the default site, which it checks in the exchange menu. Offline text is shown exactly when the network is not reachable. |
| App.AppDelegate.ApplicationWillTerminate | CoinTicker/AppDelegate.swift:103-106 | Termination stops observing and leaves every socket disconnected. |
| App.AppDelegate.OnWorkspaceWillSleep | CoinTicker/AppDelegate.swift:109-111 | Sleep leaves every socket disconnected. |
| App.AppDelegate.OnWorkspaceDidWake | CoinTicker/AppDelegate.swift:113-115 | Wake fetches again and never changes the pair list. Real-time mode disconnects the old sockets and streams the selection, with no request and no timer start. Polling mode leaves the sockets untouched, appends one ticker request per selected pair and starts the timer once. |
| App.AppDelegate.OnReachabilityChanged | CoinTicker/AppDelegate.swift:72-79 | The delegate stays valid, and the pair list, the socket list and the timer count never change. Online (Wi-Fi/Ethernet or WWAN): one catalog request is issued, the sockets are untouched and the title and icon are kept. Otherwise no request is issued, every socket is disconnected and the offline text is shown. |
| App.AppDelegate.UpdateMenuWithOfflineText | CoinTicker/AppDelegate.swift:118-125 | The title becomes the offline label; the bitcoin icon is shown if no image was. |
| App.AppDelegate.OnSelectExchangeSite | CoinTicker/AppDelegate.swift:128-150 | Choosing the current site changes nothing. Choosing another site stops the old exchange, moves the check mark and clears the currency menu. It then installs a fresh exchange for the new site, records it as the default and loads its catalog. |
| App.AppDelegate.OnProductListResponse | CoinTicker/Source/Exchanges/BitstampExchange.swift:49-63 | On failure nothing changes: not the pairs, the selection, the sockets, the requests, the timer, the menu, the icon or the title. On success the list is sorted and holds exactly the old plus the accepted pairs. The selection is the reconciled one, and the menu, icon and title match it. Prices are then fetched for that selection. In real-time mode the old sockets are disconnected and new ones stream the selection, with no request and no timer start. In polling mode the sockets are untouched, one ticker request per pair is appended and the timer starts once. |
| App.AppDelegate.DidUpdateAvailableCurrencyPairs | CoinTicker/AppDelegate.swift:256-281 | The selection becomes the reconciled selection; the menu, icon and title then match the available pairs and the new selection. |
| App.AppDelegate.DeselectUnavailable | CoinTicker/AppDelegate.swift:257-261 | The loop over a snapshot leaves exactly the pruned selection, still free of repeats. |
| App.AppDelegate.UpdateMenuItems | CoinTicker/AppDelegate.swift:190-224 | The map-indexed loop builds exactly the grouped menu; the icon and title match the selection. |
| App.AppDelegate.UpdatePrices | CoinTicker/AppDelegate.swift:226-250 | The title is composed from the selection and the cached prices. |

## Left out

- Networking:
  - Alamofire requests, WebSocket connections, dispatch queues and the request timer are not
    performed.
  - Requests become entries of `apiRequests`.
  - A started timer becomes a count in `timerStarts`.
  - Socket and response callbacks become explicit event methods (`OnConnect`, `OnText`,
    `OnTickerResponse`, `OnProductListResponse`).
  - Asynchronous dispatch to the main queue is modelled as running at once.
- JSON parsing (SwiftyJSON): a catalog record arrives as its `name` and `url_symbol` strings. A
  socket message arrives as its event and the price parsed from its data. A ticker response
  arrives as its `last` value. Prices are `real`, not `Double`.
- Currency formatting (`NumberFormatter`) is a function parameter, `formatPrice`. The localized
  loading and offline labels are parameters too.
- The locale's currency code is a parameter, and so is the currency registry behind
  `Currency.build(fromCode:)`.
- AppKit:
  - Menu items are values with a currency, a check state and a submenu.
  - Their titles, images, template flags and insertion positions are not modelled.
  - The status image is named by the currency whose icon it shows.
- Fabric and Crashlytics start-up, and analytics (`TrackingUtils.didSelectExchange`), are not
  modelled.
- `Exchange.build(fromSite:delegate:)` picks a backend per site; every site here gets the
  Bitstamp model.
- The `Exchange` base class is not part of this model. This covers `super.load()`,
  `super.stop()`, `reset()` and `startRequestTimer()` beyond the timer count.
- The `TickerConfig` delegate callbacks (`didUpdateSelectedCurrencyPairs`, which rebuilds the menu
  and resets the exchange; `didSelectUpdateInterval`; `didUpdatePrices`) and the persistence of
  the configuration are not modelled.
- The user actions `onSelectQuoteCurrency`, `onSelectUpdateInterval` and `onQuit` are outside the
  modelled core.
- The reachability manager's own start-up callback is not modelled. At launch only the
  reachability flag passed in decides whether the offline text is shown; later status changes are
  `OnReachabilityChanged` events.
- Swift `String` comparison is modelled as lexicographic comparison of characters. Unicode
  canonical ordering is not modelled.
- Text.Split: splits a sequence of Dafny `char`s, while Swift splits `Character`s (grapheme
  clusters). A `/` followed by a combining mark is one character in Swift and no separator, but
  the model treats it as a separator. Catalog names are plain ASCII codes, where the two agree.
- Pairs.SortPairsSortsAndPermutes: states sorted and a permutation, not which of two equal pairs
  comes first, because `sorted()` does not promise stability.
- Bitstamp.Exchange.Stop: states idempotence on the sockets' connected flags, which is the only
  state `stop()` changes here.
- App.AppDelegate.OnProductListResponse: requires the list after a successful catalog to be
  non-empty. With an empty list the source's reconciliation force-unwraps a missing default pair
  and traps, and that crash is not modelled.
