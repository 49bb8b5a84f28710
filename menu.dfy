/**
  What the status-bar menu and title show: the available pairs grouped by base currency, the
  status icon, and the title composed from the selected pairs and their cached prices.
*/
module Menu {
  import opened Pairs
  import opened Text
  import opened Config

  /** A quote-currency entry in a base currency's submenu, checked when that pair is watched. */
  datatype QuoteItem = QuoteItem(quote: Currency, on: bool)

  /** A base-currency entry, checked when any pair with that base is watched. */
  datatype BaseItem = BaseItem(base: Currency, on: bool, submenu: seq<QuoteItem>)

  /** The base currencies of `s`, each once, in order of first appearance. */
  function DistinctBases(s: seq<CurrencyPair>): seq<Currency>
  {
    if s == [] then []
    else
      var bases := DistinctBases(s[..|s| - 1]);
      var b := s[|s| - 1].baseCurrency;
      if b in bases then bases else bases + [b]
  }

  /** The submenu of `base`: one entry per pair of `s` with that base, in list order. */
  function QuoteItems(s: seq<CurrencyPair>, base: Currency, selected: seq<CurrencyPair>): seq<QuoteItem>
  {
    if s == [] then []
    else
      var p := s[|s| - 1];
      QuoteItems(s[..|s| - 1], base, selected)
      + (if p.baseCurrency == base then [QuoteItem(p.quoteCurrency, WatchingPair(selected, base, p.quoteCurrency))] else [])
  }

  /** The currency menu for a list of available pairs and a selection. */
  function MenuItems(available: seq<CurrencyPair>, selected: seq<CurrencyPair>): seq<BaseItem>
  {
    var bases := DistinctBases(available);
    seq(|bases|, k requires 0 <= k < |bases| =>
      BaseItem(bases[k], WatchingBase(selected, bases[k]), QuoteItems(available, bases[k], selected)))
  }

  predicate HasBase(s: seq<CurrencyPair>, b: Currency)
  {
    exists i | 0 <= i < |s| :: s[i].baseCurrency == b
  }

  predicate NoDuplicates(bases: seq<Currency>)
  {
    forall i, j | 0 <= i < j < |bases| :: bases[i] != bases[j]
  }

  /** `a` occurs as a base in `s` before any occurrence of `b`. */
  predicate AppearsBefore(s: seq<CurrencyPair>, a: Currency, b: Currency)
  {
    exists i | 0 <= i < |s| :: s[i].baseCurrency == a && forall j | 0 <= j <= i :: s[j].baseCurrency != b
  }

  /**
    One entry per distinct base: the bases listed are exactly the bases of the pairs, none twice,
    in order of first appearance.
  */
  lemma {:induction false} DistinctBasesSpec(s: seq<CurrencyPair>)
    ensures NoDuplicates(DistinctBases(s))
    ensures forall b :: b in DistinctBases(s) <==> HasBase(s, b)
    ensures forall k1, k2 | 0 <= k1 < k2 < |DistinctBases(s)| ::
      AppearsBefore(s, DistinctBases(s)[k1], DistinctBases(s)[k2])
  {
    if s != [] {
      var init := s[..|s| - 1];
      var p := s[|s| - 1];
      var bases := DistinctBases(init);
      DistinctBasesSpec(init);
      forall b ensures HasBase(s, b) <==> HasBase(init, b) || b == p.baseCurrency {
        if HasBase(s, b) && b != p.baseCurrency {
          var i :| 0 <= i < |s| && s[i].baseCurrency == b;
          assert init[i] == s[i];
        }
        if HasBase(init, b) {
          var i :| 0 <= i < |init| && init[i].baseCurrency == b;
          assert s[i] == init[i];
        }
      }
      var r := DistinctBases(s);
      forall k1, k2 | 0 <= k1 < k2 < |r| ensures AppearsBefore(s, r[k1], r[k2]) {
        if k2 < |bases| {
          assert AppearsBefore(init, bases[k1], bases[k2]);
          var i :| 0 <= i < |init| && init[i].baseCurrency == bases[k1]
            && forall j | 0 <= j <= i :: init[j].baseCurrency != bases[k2];
          assert s[i].baseCurrency == r[k1];
          forall j | 0 <= j <= i ensures s[j].baseCurrency != r[k2] {
            assert s[j] == init[j];
          }
        } else {
          assert r[k2] == p.baseCurrency && p.baseCurrency !in bases;
          assert r[k1] in bases;
          var i :| 0 <= i < |init| && init[i].baseCurrency == r[k1];
          assert s[i].baseCurrency == r[k1];
          forall j | 0 <= j <= i ensures s[j].baseCurrency != r[k2] {
            assert s[j] == init[j];
          }
        }
      }
    }
  }

  /** A base with no pair in `s` has an empty submenu. */
  lemma {:induction false} QuoteItemsAbsent(s: seq<CurrencyPair>, base: Currency, selected: seq<CurrencyPair>)
    requires !HasBase(s, base)
    ensures QuoteItems(s, base, selected) == []
  {
    if s != [] {
      var init := s[..|s| - 1];
      assert !HasBase(init, base) by {
        forall i | 0 <= i < |init| ensures init[i].baseCurrency != base {
          assert init[i] == s[i];
        }
      }
      QuoteItemsAbsent(init, base, selected);
    }
  }

  /** The total number of submenu entries under a list of bases. */
  function SubmenuTotal(bases: seq<Currency>, s: seq<CurrencyPair>, selected: seq<CurrencyPair>): nat
  {
    if bases == [] then 0
    else |QuoteItems(s, bases[0], selected)| + SubmenuTotal(bases[1..], s, selected)
  }

  lemma {:induction false} SubmenuTotalAppend(bases: seq<Currency>, b: Currency, s: seq<CurrencyPair>, selected: seq<CurrencyPair>)
    ensures SubmenuTotal(bases + [b], s, selected) == SubmenuTotal(bases, s, selected) + |QuoteItems(s, b, selected)|
  {
    if bases != [] {
      assert (bases + [b])[1..] == bases[1..] + [b];
      SubmenuTotalAppend(bases[1..], b, s, selected);
    }
  }

  /** Adding pair `p` to the list adds one submenu entry for each listing of its base. */
  lemma {:induction false} SubmenuTotalSnoc(bases: seq<Currency>, s: seq<CurrencyPair>, p: CurrencyPair, selected: seq<CurrencyPair>)
    ensures SubmenuTotal(bases, s + [p], selected) ==
      SubmenuTotal(bases, s, selected) + (if p.baseCurrency in bases then 1 else 0)
    requires NoDuplicates(bases)
  {
    if bases != [] {
      assert (s + [p])[..|s + [p]| - 1] == s;
      var rest := bases[1..];
      assert NoDuplicates(rest) by {
        forall i, j | 0 <= i < j < |rest| ensures rest[i] != rest[j] {
          assert rest[i] == bases[i + 1] && rest[j] == bases[j + 1];
        }
      }
      SubmenuTotalSnoc(rest, s, p, selected);
      if p.baseCurrency == bases[0] {
        assert p.baseCurrency !in rest by {
          forall i | 0 <= i < |rest| ensures rest[i] != p.baseCurrency {
            assert rest[i] == bases[i + 1];
          }
        }
      } else {
        assert p.baseCurrency in bases <==> p.baseCurrency in rest by {
          assert bases == [bases[0]] + rest;
        }
      }
    }
  }

  /** Every available pair contributes exactly one submenu entry. */
  lemma {:induction false} EveryPairListedOnce(s: seq<CurrencyPair>, selected: seq<CurrencyPair>)
    ensures SubmenuTotal(DistinctBases(s), s, selected) == |s|
  {
    if s != [] {
      var init := s[..|s| - 1];
      var p := s[|s| - 1];
      var bases := DistinctBases(init);
      assert s == init + [p];
      EveryPairListedOnce(init, selected);
      DistinctBasesSpec(init);
      SubmenuTotalSnoc(bases, init, p, selected);
      if p.baseCurrency !in bases {
        SubmenuTotalAppend(bases, p.baseCurrency, s, selected);
        QuoteItemsAbsent(init, p.baseCurrency, selected);
      }
    }
  }

  /** The submenu entry that pair `p` contributes. */
  function QuoteItemFor(p: CurrencyPair, selected: seq<CurrencyPair>): QuoteItem
  {
    QuoteItem(p.quoteCurrency, WatchingPair(selected, p.baseCurrency, p.quoteCurrency))
  }

  /** A pair whose base is new to the list opens a new base entry at the end, holding only its quote. */
  lemma MenuItemsSnocNewBase(s: seq<CurrencyPair>, p: CurrencyPair, selected: seq<CurrencyPair>)
    requires p.baseCurrency !in DistinctBases(s)
    ensures MenuItems(s + [p], selected) ==
      MenuItems(s, selected) + [BaseItem(p.baseCurrency, WatchingBase(selected, p.baseCurrency), [QuoteItemFor(p, selected)])]
  {
    var t := s + [p];
    var b := p.baseCurrency;
    assert t[..|t| - 1] == s;
    var bases := DistinctBases(s);
    assert DistinctBases(t) == bases + [b];
    DistinctBasesSpec(s);
    QuoteItemsAbsent(s, b, selected);
    assert QuoteItems(t, b, selected) == [QuoteItemFor(p, selected)];
    var lhs := MenuItems(t, selected);
    var rhs := MenuItems(s, selected) + [BaseItem(b, WatchingBase(selected, b), [QuoteItemFor(p, selected)])];
    forall j | 0 <= j < |lhs| ensures lhs[j] == rhs[j] {
      if j < |bases| {
        assert bases[j] != b;
        assert QuoteItems(t, bases[j], selected) == QuoteItems(s, bases[j], selected);
      }
    }
  }

  /** A pair whose base is already listed at position `k` appends its quote to that entry's submenu. */
  lemma MenuItemsSnocKnownBase(s: seq<CurrencyPair>, p: CurrencyPair, selected: seq<CurrencyPair>, k: nat)
    requires k < |DistinctBases(s)| && DistinctBases(s)[k] == p.baseCurrency
    ensures var m := MenuItems(s, selected);
      MenuItems(s + [p], selected) == m[k := m[k].(submenu := m[k].submenu + [QuoteItemFor(p, selected)])]
  {
    var t := s + [p];
    assert t[..|t| - 1] == s;
    var bases := DistinctBases(s);
    assert DistinctBases(t) == bases;
    var m := MenuItems(s, selected);
    var lhs := MenuItems(t, selected);
    var rhs := m[k := m[k].(submenu := m[k].submenu + [QuoteItemFor(p, selected)])];
    forall j | 0 <= j < |lhs| ensures lhs[j] == rhs[j] {
      if bases[j] == p.baseCurrency {
        assert QuoteItems(t, bases[j], selected) == QuoteItems(s, bases[j], selected) + [QuoteItemFor(p, selected)];
        DistinctBasesSpec(s);
        assert j == k;
      } else {
        assert QuoteItems(t, bases[j], selected) == QuoteItems(s, bases[j], selected);
      }
    }
  }

  /** The status icon: the base currency of the only selected pair, none otherwise. */
  function StatusIcon(selected: seq<CurrencyPair>): (icon: Option<Currency>)
    ensures icon.Some? <==> |selected| == 1
    ensures icon.Some? ==> icon.value == selected[0].baseCurrency
  {
    if |selected| == 1 then Some(selected[0].baseCurrency) else None
  }

  // ---------------------------------------------------------------------------------------
  // The status title.

  /** How a price is shown: the loading label, or the formatter's output for these settings. */
  datatype PriceText = Loading | Formatted(price: real, currency: Currency, maxFractionDigits: nat)

  /** One pair's part of the title: an optional `"<base>: "` prefix and the price text. */
  datatype TitleSegment = TitleSegment(prefix: string, text: PriceText)

  const TitleSeparator := " • "

  /**
    The title segment of pair `p` at `price`, when `single` says whether it is the only selected pair.
  */
  function SegmentFor(p: CurrencyPair, price: real, single: bool): (seg: TitleSegment)
    ensures seg.text.Loading? <==> price <= 0.0
    ensures seg.text.Formatted? ==> seg.text.price == price && seg.text.currency == p.quoteCurrency
    ensures seg.text.Formatted? ==> (seg.text.maxFractionDigits == 5 <==> price < 1.0)
    ensures seg.text.Formatted? ==> (seg.text.maxFractionDigits == 2 <==> price >= 1.0)
    ensures seg.prefix == "" <==> single
    ensures !single ==> seg.prefix == p.baseCurrency.code + ": "
  {
    var text := if price > 0.0 then Formatted(price, p.quoteCurrency, if price < 1.0 then 5 else 2) else Loading;
    if single then TitleSegment("", text) else TitleSegment(p.baseCurrency.code + ": ", text)
  }

  /** One segment per selected pair, in selection order. */
  function TitleSegments(selected: seq<CurrencyPair>, prices: map<PairKey, real>): (segs: seq<TitleSegment>)
    ensures |segs| == |selected|
    ensures forall k | 0 <= k < |selected| ::
      && (segs[k].text.Loading? <==> PriceOf(prices, selected[k]) <= 0.0)
      && (segs[k].text.Formatted? ==>
            && segs[k].text.price == PriceOf(prices, selected[k])
            && segs[k].text.currency == selected[k].quoteCurrency
            && (segs[k].text.maxFractionDigits == 5 <==> PriceOf(prices, selected[k]) < 1.0)
            && (segs[k].text.maxFractionDigits == 2 <==> PriceOf(prices, selected[k]) >= 1.0))
      && (segs[k].prefix == "" <==> |selected| == 1)
      && (|selected| != 1 ==> segs[k].prefix == selected[k].baseCurrency.code + ": ")
  {
    seq(|selected|, k requires 0 <= k < |selected| =>
      SegmentFor(selected[k], PriceOf(prices, selected[k]), |selected| == 1))
  }

  /** The text of one segment, given the loading label and the currency formatter. */
  function RenderSegment(seg: TitleSegment, loading: string, format: (real, Currency, nat) -> string): string
  {
    seg.prefix + match seg.text
      case Loading => loading
      case Formatted(price, currency, digits) => format(price, currency, digits)
  }

  /** The status title: the rendered segments joined by `" • "`. */
  function Title(selected: seq<CurrencyPair>, prices: map<PairKey, real>, loading: string,
                 format: (real, Currency, nat) -> string): string
  {
    var segs := TitleSegments(selected, prices);
    Join(seq(|segs|, k requires 0 <= k < |segs| => RenderSegment(segs[k], loading, format)), TitleSeparator)
  }

  /** The rendered segments joined by the separator, one after another. */
  lemma {:induction false} JoinSpec(ps: seq<string>, sep: string)
    ensures ps == [] ==> Join(ps, sep) == ""
    ensures |ps| == 1 ==> Join(ps, sep) == ps[0]
    ensures |ps| >= 2 ==> Join(ps, sep) == Join(ps[..|ps| - 1], sep) + sep + ps[|ps| - 1]
  {
    if |ps| >= 3 {
      JoinSpec(ps[1..], sep);
      assert ps[1..][..|ps[1..]| - 1] == ps[..|ps| - 1][1..];
      assert ps[1..][|ps[1..]| - 1] == ps[|ps| - 1];
    }
  }

  /**
    With one pair selected the title is that pair's price text alone, with no prefix; with none it
    is empty.
  */
  lemma TitleSinglePair(selected: seq<CurrencyPair>, prices: map<PairKey, real>, loading: string,
                        format: (real, Currency, nat) -> string)
    requires |selected| <= 1
    ensures |selected| == 0 ==> Title(selected, prices, loading, format) == ""
    ensures |selected| == 1 ==>
      (Title(selected, prices, loading, format) ==
        var price := PriceOf(prices, selected[0]);
        if price > 0.0 then format(price, selected[0].quoteCurrency, if price < 1.0 then 5 else 2) else loading)
  {
  }

  /** Selecting one more pair appends `" • "` and its segment to the title's segments. */
  lemma TitleExtends(selected: seq<CurrencyPair>, prices: map<PairKey, real>, loading: string,
                     format: (real, Currency, nat) -> string)
    requires |selected| >= 2
    ensures var segs := TitleSegments(selected, prices);
      var texts := seq(|segs|, k requires 0 <= k < |segs| => RenderSegment(segs[k], loading, format));
      Title(selected, prices, loading, format) == Join(texts[..|texts| - 1], TitleSeparator) + TitleSeparator + texts[|texts| - 1]
  {
    var segs := TitleSegments(selected, prices);
    var texts := seq(|segs|, k requires 0 <= k < |segs| => RenderSegment(segs[k], loading, format));
    JoinSpec(texts, TitleSeparator);
  }
}
