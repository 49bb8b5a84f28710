/** String splitting and joining as the Swift standard library does them. */
module Text {

  /** A piece that `split(separator:)` can produce: non-empty and free of the separator. */
  predicate IsPiece(w: string, sep: char)
  {
    w != [] && sep !in w
  }

  function Flush(cur: string): seq<string>
  {
    if cur == [] then [] else [cur]
  }

  /** Split the rest `s` of a string whose current, unfinished piece is `cur`. */
  function SplitFrom(s: string, sep: char, cur: string): seq<string>
    decreases |s|
  {
    if s == [] then Flush(cur)
    else if s[0] == sep then Flush(cur) + SplitFrom(s[1..], sep, [])
    else SplitFrom(s[1..], sep, cur + [s[0]])
  }

  /** `s.split(separator: sep)` with its default of omitting empty pieces. */
  function Split(s: string, sep: char): seq<string>
  {
    SplitFrom(s, sep, [])
  }

  /** `ps.joined(separator: sep)`. */
  function Join(ps: seq<string>, sep: string): string
  {
    if ps == [] then ""
    else if |ps| == 1 then ps[0]
    else ps[0] + sep + Join(ps[1..], sep)
  }

  lemma {:induction false} SplitFromPieces(s: string, sep: char, cur: string)
    requires sep !in cur
    ensures forall w | w in SplitFrom(s, sep, cur) :: IsPiece(w, sep)
    decreases |s|
  {
    if s != [] {
      if s[0] == sep {
        SplitFromPieces(s[1..], sep, []);
      } else {
        SplitFromPieces(s[1..], sep, cur + [s[0]]);
      }
    }
  }

  /** Every piece that `Split` produces is non-empty and holds no separator. */
  lemma SplitPieces(s: string, sep: char)
    ensures forall w | w in Split(s, sep) :: IsPiece(w, sep)
  {
    SplitFromPieces(s, sep, []);
  }

  /** Characters other than the separator just extend the current piece. */
  lemma {:induction false} SplitFromAppend(w: string, t: string, sep: char, cur: string)
    requires sep !in w
    ensures SplitFrom(w + t, sep, cur) == SplitFrom(t, sep, cur + w)
    decreases |w|
  {
    if w == [] {
      assert w + t == t && cur + w == cur;
    } else {
      assert (w + t)[0] == w[0] && (w + t)[1..] == w[1..] + t;
      SplitFromAppend(w[1..], t, sep, cur + [w[0]]);
      assert cur + [w[0]] + w[1..] == cur + w;
    }
  }

  /** Splitting undoes joining: pieces joined with the separator split back into the same pieces. */
  lemma {:induction false} SplitJoin(ps: seq<string>, sep: char)
    requires forall w | w in ps :: IsPiece(w, sep)
    ensures Split(Join(ps, [sep]), sep) == ps
  {
    if ps == [] {
    } else if |ps| == 1 {
      assert ps[0] in ps;
      SplitFromAppend(ps[0], [], sep, []);
      assert ps[0] + [] == ps[0] && [] + ps[0] == ps[0];
    } else {
      assert ps[0] in ps;
      var rest := Join(ps[1..], [sep]);
      assert Join(ps, [sep]) == ps[0] + ([sep] + rest);
      SplitFromAppend(ps[0], [sep] + rest, sep, []);
      assert ([sep] + rest)[1..] == rest;
      assert [] + ps[0] == ps[0];
      forall w | w in ps[1..] ensures IsPiece(w, sep) {
        assert w in ps;
      }
      SplitJoin(ps[1..], sep);
      assert ps == [ps[0]] + ps[1..];
    }
  }

  lemma {:induction false} SplitFromCollapses(a: string, b: string, sep: char, cur: string)
    ensures SplitFrom(a + [sep, sep] + b, sep, cur) == SplitFrom(a + [sep] + b, sep, cur)
    decreases |a|
  {
    if a == [] {
      assert a + [sep, sep] + b == [sep] + ([sep] + b);
      assert a + [sep] + b == [sep] + b;
      assert ([sep] + ([sep] + b))[1..] == [sep] + b;
      assert ([sep] + b)[1..] == b;
    } else {
      assert (a + [sep, sep] + b)[1..] == a[1..] + [sep, sep] + b;
      assert (a + [sep] + b)[1..] == a[1..] + [sep] + b;
      if a[0] == sep {
        SplitFromCollapses(a[1..], b, sep, []);
      } else {
        SplitFromCollapses(a[1..], b, sep, cur + [a[0]]);
      }
    }
  }

  /** Empty pieces are omitted: a doubled separator splits like a single one. */
  lemma SplitOmitsEmptyPieces(a: string, b: string, sep: char)
    ensures Split(a + [sep, sep] + b, sep) == Split(a + [sep] + b, sep)
  {
    SplitFromCollapses(a, b, sep, []);
  }
}
