/** Currencies, currency pairs, pair identity and the order that `sorted()` uses. */
module Pairs {

  datatype Option<T> = None | Some(value: T)

  /** A currency as the ticker sees it: its code and whether it is a crypto asset. */
  datatype Currency = Currency(code: string, isCrypto: bool)

  /** Bitcoin, whose icon the status item falls back to when offline. */
  const BTC := Currency("BTC", true)

  /** The process-wide registry of known currencies: each known code and whether it is crypto. */
  type Catalog = map<string, bool>

  /** `Currency.build(fromCode:)`: the registry entry for a code, or none for an unknown code. */
  function BuildCurrency(catalog: Catalog, code: string): Option<Currency>
  {
    if code in catalog then Some(Currency(code, catalog[code])) else None
  }

  /** A trading pair; `customCode` is the backend's own identifier for it. */
  datatype CurrencyPair = CurrencyPair(baseCurrency: Currency, quoteCurrency: Currency, customCode: string)

  /** The failable pair constructor: fails when either code is unknown. */
  function BuildPair(catalog: Catalog, base: string, quote: string, customCode: string): (r: Option<CurrencyPair>)
    ensures r.Some? <==> base in catalog && quote in catalog
    ensures r.Some? ==> r.value.baseCurrency.code == base && r.value.quoteCurrency.code == quote
    ensures r.Some? ==> r.value.baseCurrency.isCrypto == catalog[base] && r.value.customCode == customCode
  {
    match (BuildCurrency(catalog, base), BuildCurrency(catalog, quote))
    case (Some(b), Some(q)) => Some(CurrencyPair(b, q, customCode))
    case _ => None
  }

  /** Pair identity: the base and quote codes; the backend identifier takes no part in it. */
  datatype PairKey = PairKey(base: string, quote: string)

  function Key(p: CurrencyPair): PairKey
  {
    PairKey(p.baseCurrency.code, p.quoteCurrency.code)
  }

  /** `contains` on a list of pairs, under pair identity. */
  predicate Contains(s: seq<CurrencyPair>, p: CurrencyPair)
  {
    exists i | 0 <= i < |s| :: Key(s[i]) == Key(p)
  }

  /** No two entries of `s` are the same pair. */
  predicate UniqueKeys(s: seq<CurrencyPair>)
  {
    forall i, j | 0 <= i < j < |s| :: Key(s[i]) != Key(s[j])
  }

  /** `s` with every entry that is the pair `p` removed, the rest in order. */
  function Without(s: seq<CurrencyPair>, p: CurrencyPair): (r: seq<CurrencyPair>)
    ensures forall x :: x in r <==> x in s && Key(x) != Key(p)
    ensures !Contains(r, p)
    ensures |r| <= |s|
  {
    if s == [] then []
    else (if Key(s[0]) == Key(p) then [] else [s[0]]) + Without(s[1..], p)
  }

  lemma {:induction false} WithoutNoMatch(s: seq<CurrencyPair>, p: CurrencyPair)
    requires !Contains(s, p)
    ensures Without(s, p) == s
  {
    if s != [] {
      assert Key(s[0]) != Key(p);
      assert !Contains(s[1..], p) by {
        forall i | 0 <= i < |s[1..]| ensures Key(s[1..][i]) != Key(p) {
          assert s[1..][i] == s[i + 1];
        }
      }
      WithoutNoMatch(s[1..], p);
    }
  }

  lemma {:induction false} WithoutConcat(a: seq<CurrencyPair>, b: seq<CurrencyPair>, p: CurrencyPair)
    ensures Without(a + b, p) == Without(a, p) + Without(b, p)
  {
    if a != [] {
      assert (a + b)[1..] == a[1..] + b;
      WithoutConcat(a[1..], b, p);
    } else {
      assert a + b == b;
    }
  }

  lemma TailUnique(s: seq<CurrencyPair>)
    requires s != [] && UniqueKeys(s)
    ensures UniqueKeys(s[1..])
    ensures forall x | x in s[1..] :: Key(x) != Key(s[0])
  {
    var t := s[1..];
    forall i, j | 0 <= i < j < |t| ensures Key(t[i]) != Key(t[j]) {
      assert t[i] == s[i + 1] && t[j] == s[j + 1];
    }
    forall x | x in t ensures Key(x) != Key(s[0]) {
      var k :| 0 <= k < |t| && t[k] == x;
      assert s[k + 1] == x;
    }
  }

  lemma ConsUnique(x: CurrencyPair, w: seq<CurrencyPair>)
    requires UniqueKeys(w) && forall y | y in w :: Key(y) != Key(x)
    ensures UniqueKeys([x] + w)
  {
    var r := [x] + w;
    forall i, j | 0 <= i < j < |r| ensures Key(r[i]) != Key(r[j]) {
      assert r[j] == w[j - 1] && r[j] in w;
      if i > 0 {
        assert r[i] == w[i - 1];
      }
    }
  }

  /** Removing a pair from a list of distinct pairs leaves a list of distinct pairs. */
  lemma {:induction false} WithoutKeepsUnique(s: seq<CurrencyPair>, p: CurrencyPair)
    requires UniqueKeys(s)
    ensures UniqueKeys(Without(s, p))
  {
    if s != [] {
      var t := s[1..];
      TailUnique(s);
      WithoutKeepsUnique(t, p);
      var w := Without(t, p);
      if Key(s[0]) != Key(p) {
        assert Without(s, p) == [s[0]] + w;
        ConsUnique(s[0], w);
      }
    }
  }

  /** `isWatching(baseCurrency:)`: some selected pair has this base. */
  predicate WatchingBase(selected: seq<CurrencyPair>, base: Currency)
  {
    exists i | 0 <= i < |selected| :: selected[i].baseCurrency == base
  }

  /** `isWatching(baseCurrency:quoteCurrency:)`: some selected pair has this base and quote. */
  predicate WatchingPair(selected: seq<CurrencyPair>, base: Currency, quote: Currency)
  {
    exists i | 0 <= i < |selected| :: selected[i].baseCurrency == base && selected[i].quoteCurrency == quote
  }

  // ---------------------------------------------------------------------------------------
  // Ordering: pairs compare by base code, then quote code, each lexicographically.

  predicate LexLeq(a: string, b: string)
    decreases |a|
  {
    a == [] || (b != [] && (a[0] < b[0] || (a[0] == b[0] && LexLeq(a[1..], b[1..]))))
  }

  lemma {:induction false} LexLeqTotal(a: string, b: string)
    ensures LexLeq(a, b) || LexLeq(b, a)
    decreases |a|
  {
    if a != [] && b != [] && a[0] == b[0] {
      LexLeqTotal(a[1..], b[1..]);
    }
  }

  lemma {:induction false} LexLeqAntisymmetric(a: string, b: string)
    requires LexLeq(a, b) && LexLeq(b, a)
    ensures a == b
    decreases |a|
  {
    if a != [] && b != [] {
      LexLeqAntisymmetric(a[1..], b[1..]);
      assert a == [a[0]] + a[1..] && b == [b[0]] + b[1..];
    }
  }

  lemma {:induction false} LexLeqTransitive(a: string, b: string, c: string)
    requires LexLeq(a, b) && LexLeq(b, c)
    ensures LexLeq(a, c)
    decreases |a|
  {
    if a != [] && b != [] && c != [] && a[0] == b[0] && b[0] == c[0] {
      LexLeqTransitive(a[1..], b[1..], c[1..]);
    }
  }

  /** `p <= q` for the pair order. */
  predicate PairLeq(p: CurrencyPair, q: CurrencyPair)
  {
    LexLeq(p.baseCurrency.code, q.baseCurrency.code)
    && (p.baseCurrency.code == q.baseCurrency.code ==> LexLeq(p.quoteCurrency.code, q.quoteCurrency.code))
  }

  lemma PairLeqTotal(p: CurrencyPair, q: CurrencyPair)
    ensures PairLeq(p, q) || PairLeq(q, p)
  {
    LexLeqTotal(p.baseCurrency.code, q.baseCurrency.code);
    LexLeqTotal(p.quoteCurrency.code, q.quoteCurrency.code);
  }

  lemma PairLeqTransitive(p: CurrencyPair, q: CurrencyPair, r: CurrencyPair)
    requires PairLeq(p, q) && PairLeq(q, r)
    ensures PairLeq(p, r)
  {
    LexLeqTransitive(p.baseCurrency.code, q.baseCurrency.code, r.baseCurrency.code);
    if p.baseCurrency.code == r.baseCurrency.code {
      LexLeqAntisymmetric(p.baseCurrency.code, q.baseCurrency.code);
      LexLeqTransitive(p.quoteCurrency.code, q.quoteCurrency.code, r.quoteCurrency.code);
    }
  }

  /** The order agrees with pair identity: two pairs are mutually ordered exactly when they are the same pair. */
  lemma PairOrderMatchesIdentity(p: CurrencyPair, q: CurrencyPair)
    ensures PairLeq(p, q) && PairLeq(q, p) <==> Key(p) == Key(q)
  {
    if PairLeq(p, q) && PairLeq(q, p) {
      LexLeqAntisymmetric(p.baseCurrency.code, q.baseCurrency.code);
      LexLeqAntisymmetric(p.quoteCurrency.code, q.quoteCurrency.code);
    }
    if Key(p) == Key(q) {
      LexLeqTotal(p.baseCurrency.code, q.baseCurrency.code);
      LexLeqTotal(p.quoteCurrency.code, q.quoteCurrency.code);
    }
  }

  predicate IsSorted(s: seq<CurrencyPair>)
  {
    forall i, j | 0 <= i < j < |s| :: PairLeq(s[i], s[j])
  }

  /** Insert `x` into a sorted list in front of the first entry it does not exceed. */
  function Insert(x: CurrencyPair, s: seq<CurrencyPair>): seq<CurrencyPair>
  {
    if s == [] then [x]
    else if PairLeq(x, s[0]) then [x] + s
    else [s[0]] + Insert(x, s[1..])
  }

  /** `sorted()` on a list of pairs (an insertion sort). */
  function SortPairs(s: seq<CurrencyPair>): seq<CurrencyPair>
  {
    if s == [] then [] else Insert(s[0], SortPairs(s[1..]))
  }

  lemma {:induction false} InsertPermutes(x: CurrencyPair, s: seq<CurrencyPair>)
    ensures multiset(Insert(x, s)) == multiset(s) + multiset{x}
  {
    if s != [] && !PairLeq(x, s[0]) {
      InsertPermutes(x, s[1..]);
      assert s == [s[0]] + s[1..];
    }
  }

  /** Every entry of `s` below the first is at least the first. */
  lemma SortedHead(s: seq<CurrencyPair>, y: CurrencyPair)
    requires IsSorted(s) && s != [] && y in s[1..]
    ensures PairLeq(s[0], y)
  {
    var k :| 0 <= k < |s[1..]| && s[1..][k] == y;
    assert s[k + 1] == y;
  }

  lemma SortedTail(s: seq<CurrencyPair>)
    requires IsSorted(s) && s != []
    ensures IsSorted(s[1..])
  {
    var t := s[1..];
    forall i, j | 0 <= i < j < |t| ensures PairLeq(t[i], t[j]) {
      assert t[i] == s[i + 1] && t[j] == s[j + 1];
    }
  }

  /** A sorted list with a head no greater than every later entry stays sorted with that head. */
  lemma SortedCons(h: CurrencyPair, t: seq<CurrencyPair>)
    requires IsSorted(t)
    requires forall y | y in t :: PairLeq(h, y)
    ensures IsSorted([h] + t)
  {
    var r := [h] + t;
    forall i, j | 0 <= i < j < |r| ensures PairLeq(r[i], r[j]) {
      if i == 0 {
        assert r[j] == t[j - 1] && r[j] in t;
      } else {
        assert r[i] == t[i - 1] && r[j] == t[j - 1];
      }
    }
  }

  lemma {:induction false} InsertSorted(x: CurrencyPair, s: seq<CurrencyPair>)
    requires IsSorted(s)
    ensures IsSorted(Insert(x, s))
  {
    if s == [] {
    } else if PairLeq(x, s[0]) {
      forall y | y in s ensures PairLeq(x, y) {
        if y != s[0] {
          assert s == [s[0]] + s[1..];
          SortedHead(s, y);
          PairLeqTransitive(x, s[0], y);
        }
      }
      SortedCons(x, s);
    } else {
      PairLeqTotal(x, s[0]);
      SortedTail(s);
      InsertSorted(x, s[1..]);
      InsertPermutes(x, s[1..]);
      var u := Insert(x, s[1..]);
      forall y | y in u ensures PairLeq(s[0], y) {
        assert y in multiset(u);
        if y != x {
          assert y in multiset(s[1..]);
          SortedHead(s, y);
        }
      }
      SortedCons(s[0], u);
    }
  }

  /** The result of `sorted()` is in order and holds exactly the entries it was given. */
  lemma {:induction false} SortPairsSortsAndPermutes(s: seq<CurrencyPair>)
    ensures IsSorted(SortPairs(s))
    ensures multiset(SortPairs(s)) == multiset(s)
  {
    if s != [] {
      SortPairsSortsAndPermutes(s[1..]);
      InsertSorted(s[0], SortPairs(s[1..]));
      InsertPermutes(s[0], SortPairs(s[1..]));
      assert s == [s[0]] + s[1..];
    }
  }
}
