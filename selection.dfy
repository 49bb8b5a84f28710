/**
  Reconciling the selected pairs with a newly published list of available pairs: prune the
  selections that are no longer available, and pick a default when nothing is left.
*/
module Selection {
  import opened Pairs

  /** The selections that are still available, in selection order. */
  function Prune(selected: seq<CurrencyPair>, available: seq<CurrencyPair>): seq<CurrencyPair>
  {
    if selected == [] then []
    else
      var last := selected[|selected| - 1];
      Prune(selected[..|selected| - 1], available) + (if Contains(available, last) then [last] else [])
  }

  /** `a` is `b` with some entries left out, the rest in their order. */
  predicate IsSubsequence(a: seq<CurrencyPair>, b: seq<CurrencyPair>)
    decreases |b|
  {
    a == [] ||
      (b != [] &&
        ((a[|a| - 1] == b[|b| - 1] && IsSubsequence(a[..|a| - 1], b[..|b| - 1]))
        || IsSubsequence(a, b[..|b| - 1])))
  }

  /** A pair survives pruning exactly when it was selected and is still available. */
  lemma {:induction false} PruneMembers(selected: seq<CurrencyPair>, available: seq<CurrencyPair>)
    ensures forall x :: x in Prune(selected, available) <==> x in selected && Contains(available, x)
  {
    if selected != [] {
      var init := selected[..|selected| - 1];
      PruneMembers(init, available);
      assert selected == init + [selected[|selected| - 1]];
    }
  }

  /** Surviving selections keep their relative order. */
  lemma {:induction false} PruneKeepsOrder(selected: seq<CurrencyPair>, available: seq<CurrencyPair>)
    ensures IsSubsequence(Prune(selected, available), selected)
  {
    if selected != [] {
      var init := selected[..|selected| - 1];
      var last := selected[|selected| - 1];
      PruneKeepsOrder(init, available);
      var p := Prune(selected, available);
      if Contains(available, last) {
        assert p[..|p| - 1] == Prune(init, available) && p[|p| - 1] == last;
        assert IsSubsequence(p[..|p| - 1], selected[..|selected| - 1]);
      } else {
        assert p == Prune(init, available);
        assert IsSubsequence(p, selected[..|selected| - 1]);
      }
    }
  }

  /** Pruning a list whose entries are all available changes nothing. */
  lemma {:induction false} PruneAllAvailable(selected: seq<CurrencyPair>, available: seq<CurrencyPair>)
    requires forall x | x in selected :: Contains(available, x)
    ensures Prune(selected, available) == selected
  {
    if selected != [] {
      var init := selected[..|selected| - 1];
      forall x | x in init ensures Contains(available, x) {
        assert x in selected;
      }
      PruneAllAvailable(init, available);
      assert selected[|selected| - 1] in selected;
      assert selected == init + [selected[|selected| - 1]];
    }
  }

  /** No survivor of pruning an ordered-set prefix shares its key with a later entry. */
  lemma PrunedPrefixLacks(snapshot: seq<CurrencyPair>, available: seq<CurrencyPair>, i: nat)
    requires UniqueKeys(snapshot) && i < |snapshot|
    ensures !Contains(Prune(snapshot[..i], available), snapshot[i])
  {
    var kept := Prune(snapshot[..i], available);
    PruneMembers(snapshot[..i], available);
    forall j | 0 <= j < |kept| ensures Key(kept[j]) != Key(snapshot[i]) {
      assert kept[j] in snapshot[..i];
      var m :| 0 <= m < i && snapshot[..i][m] == kept[j];
      assert snapshot[m] == kept[j];
    }
  }

  /** No entry after position `i` of an ordered set shares its key with entry `i`. */
  lemma SuffixLacks(snapshot: seq<CurrencyPair>, i: nat)
    requires UniqueKeys(snapshot) && i < |snapshot|
    ensures !Contains(snapshot[i + 1..], snapshot[i])
  {
    var rest := snapshot[i + 1..];
    forall j | 0 <= j < |rest| ensures Key(rest[j]) != Key(snapshot[i]) {
      assert rest[j] == snapshot[i + 1 + j];
    }
  }

  /**
    One step of the pruning loop over a snapshot of an ordered-set selection: deselecting the
    `i`-th snapshot entry, when it is unavailable, leaves exactly the pruned prefix followed by the
    entries not yet visited.
  */
  lemma DeselectStep(snapshot: seq<CurrencyPair>, available: seq<CurrencyPair>, i: nat)
    requires UniqueKeys(snapshot) && i < |snapshot| && !Contains(available, snapshot[i])
    ensures Without(Prune(snapshot[..i], available) + snapshot[i..], snapshot[i])
      == Prune(snapshot[..i + 1], available) + snapshot[i + 1..]
  {
    var p := snapshot[i];
    var kept := Prune(snapshot[..i], available);
    var rest := snapshot[i + 1..];
    PrunedPrefixLacks(snapshot, available, i);
    SuffixLacks(snapshot, i);
    SliceAt(snapshot, i);
    WithoutMiddle(kept, p, rest);
    PruneDropsLast(snapshot[..i + 1], available);
  }

  /**
    The other step of the pruning loop: an available entry stays, so the pruned prefix grows by it
    and the unvisited entries shrink by it.
  */
  lemma KeepStep(snapshot: seq<CurrencyPair>, available: seq<CurrencyPair>, i: nat)
    requires i < |snapshot| && Contains(available, snapshot[i])
    ensures Prune(snapshot[..i + 1], available) + snapshot[i + 1..] == Prune(snapshot[..i], available) + snapshot[i..]
  {
    SliceAt(snapshot, i);
    var prefix := snapshot[..i + 1];
    assert prefix[..|prefix| - 1] == snapshot[..i];
  }

  /** The suffix from `i` is entry `i` followed by the suffix after it, and so for the prefix. */
  lemma SliceAt(s: seq<CurrencyPair>, i: nat)
    requires i < |s|
    ensures s[i..] == [s[i]] + s[i + 1..]
    ensures s[..i + 1][..i] == s[..i] && s[..i + 1][i] == s[i]
  {
  }

  /** Pruning drops a final entry that is not available. */
  lemma PruneDropsLast(s: seq<CurrencyPair>, available: seq<CurrencyPair>)
    requires s != [] && !Contains(available, s[|s| - 1])
    ensures Prune(s, available) == Prune(s[..|s| - 1], available)
  {
  }

  /** Removing a pair that occurs once, between two runs without it, joins the two runs. */
  lemma WithoutMiddle(a: seq<CurrencyPair>, p: CurrencyPair, b: seq<CurrencyPair>)
    requires !Contains(a, p) && !Contains(b, p)
    ensures Without(a + ([p] + b), p) == a + b
  {
    assert ([p] + b)[0] == p && ([p] + b)[1..] == b;
    assert Without([p] + b, p) == Without(b, p);
    WithoutNoMatch(b, p);
    WithoutConcat(a, [p] + b, p);
    WithoutNoMatch(a, p);
  }

  /** The available pairs quoted in `code`. */
  predicate QuotedIn(available: seq<CurrencyPair>, code: string)
  {
    exists j | 0 <= j < |available| :: available[j].quoteCurrency.code == code
  }

  /** `k` is the first index of a pair quoted in `code`. */
  predicate IsFirstQuotedIn(available: seq<CurrencyPair>, k: int, code: string)
  {
    0 <= k < |available| && available[k].quoteCurrency.code == code
    && forall j | 0 <= j < k :: available[j].quoteCurrency.code != code
  }

  /** `first(where: { $0.quoteCurrency == c })`, as an index. */
  function FirstQuotedIn(available: seq<CurrencyPair>, code: string): (r: Option<nat>)
    ensures r.Some? ==> IsFirstQuotedIn(available, r.value, code)
    ensures r.None? <==> !QuotedIn(available, code)
  {
    if available == [] then None
    else if available[0].quoteCurrency.code == code then Some(0)
    else
      match FirstQuotedIn(available[1..], code)
      case Some(k) => Some(k + 1)
      case None => None
  }

  /** The local currency: the locale's currency code when the registry knows it. */
  function LocalCurrency(catalog: Catalog, localCurrencyCode: Option<string>): Option<Currency>
  {
    match localCurrencyCode
    case Some(code) => BuildCurrency(catalog, code)
    case None => None
  }

  predicate LocalQuoted(available: seq<CurrencyPair>, local: Option<Currency>)
  {
    local.Some? && QuotedIn(available, local.value.code)
  }

  /**
    The index of the default pair: the first pair quoted in the local currency, else the first
    quoted in USD, else the first pair.
  */
  function DefaultIndex(available: seq<CurrencyPair>, local: Option<Currency>): (k: nat)
    requires available != []
    ensures k < |available|
    ensures LocalQuoted(available, local) ==> IsFirstQuotedIn(available, k, local.value.code)
    ensures !LocalQuoted(available, local) && QuotedIn(available, "USD") ==> IsFirstQuotedIn(available, k, "USD")
    ensures !LocalQuoted(available, local) && !QuotedIn(available, "USD") ==> k == 0
  {
    var byLocal := if local.Some? then FirstQuotedIn(available, local.value.code) else None;
    if byLocal.Some? then byLocal.value
    else
      match FirstQuotedIn(available, "USD")
      case Some(k) => k
      case None => 0
  }

  /** The selection after a new list of available pairs is published. */
  function Reconciled(selected: seq<CurrencyPair>, available: seq<CurrencyPair>, local: Option<Currency>): seq<CurrencyPair>
    requires available != []
  {
    var kept := Prune(selected, available);
    if kept != [] then kept else [available[DefaultIndex(available, local)]]
  }

  /**
    After reconciliation the selection is non-empty and every selected pair is available. If any
    selection survives pruning, the result is exactly the survivors, in their order, and nothing is
    added; otherwise the result is the single default pair.
  */
  lemma ReconciledSpec(selected: seq<CurrencyPair>, available: seq<CurrencyPair>, local: Option<Currency>)
    requires available != []
    ensures var r := Reconciled(selected, available, local);
      && r != []
      && (forall x | x in r :: Contains(available, x))
      && (Prune(selected, available) != [] ==>
            IsSubsequence(r, selected)
            && forall x :: x in r <==> x in selected && Contains(available, x))
      && (Prune(selected, available) == [] ==> r == [available[DefaultIndex(available, local)]])
  {
    PruneMembers(selected, available);
    PruneKeepsOrder(selected, available);
    var k := DefaultIndex(available, local);
    assert Key(available[k]) == Key(available[k]);
  }

  /** Reconciling an already reconciled selection against the same list changes nothing. */
  lemma ReconciledIdempotent(selected: seq<CurrencyPair>, available: seq<CurrencyPair>, local: Option<Currency>)
    requires available != []
    ensures Reconciled(Reconciled(selected, available, local), available, local) == Reconciled(selected, available, local)
  {
    var r := Reconciled(selected, available, local);
    ReconciledSpec(selected, available, local);
    PruneAllAvailable(r, available);
  }
}
