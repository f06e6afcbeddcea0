/**
  The few JavaScript string built-ins the action relies on, with their
  ECMAScript meaning: `String.prototype.split` with a one-character
  separator, `String.prototype.substr` with a non-negative start, and
  `Array.prototype.filter((i) => i)` on strings, which keeps exactly the
  non-empty ones (the empty string is the only falsy string).
*/
module JsString {

  function Min(a: nat, b: nat): nat {
    if a <= b then a else b
  }

  /** `s.split(sep)`: the maximal separator-free pieces, at least one. */
  function Split(s: string, sep: char): (pieces: seq<string>)
    ensures |pieces| >= 1
    ensures forall i :: 0 <= i < |pieces| ==> sep !in pieces[i]
  {
    if s == [] then [[]]
    else
      var rest := Split(s[1..], sep);
      if s[0] == sep then [[]] + rest
      else [[s[0]] + rest[0]] + rest[1..]
  }

  /**
    `pieces.join(sep)`: the inverse of Split. The text starts with the first
    piece and has room for a separator between each two pieces.
  */
  function Join(pieces: seq<string>, sep: char): (s: string)
    ensures |pieces| >= 1 ==> pieces[0] <= s
    ensures |pieces| >= 1 ==> |s| >= |pieces| - 1
  {
    if pieces == [] then []
    else if |pieces| == 1 then pieces[0]
    else pieces[0] + [sep] + Join(pieces[1..], sep)
  }

  lemma {:induction false} JoinSplit(s: string, sep: char)
    ensures Join(Split(s, sep), sep) == s
  {
    if s != [] {
      var rest := Split(s[1..], sep);
      JoinSplit(s[1..], sep);
      if s[0] == sep {
        assert Split(s, sep) == [[]] + rest;
        assert ([[]] + rest)[1..] == rest;
      } else {
        var pieces := Split(s, sep);
        assert pieces[0] == [s[0]] + rest[0] && pieces[1..] == rest[1..];
        if |rest| == 1 {
          assert pieces == [[s[0]] + rest[0]];
        } else {
          assert Join(rest, sep) == rest[0] + [sep] + Join(rest[1..], sep);
        }
      }
    }
  }

  lemma {:induction false} SplitNoSeparator(s: string, sep: char)
    requires sep !in s
    ensures Split(s, sep) == [s]
  {
    if s != [] {
      SplitNoSeparator(s[1..], sep);
      assert [s[0]] + s[1..] == s;
    }
  }

  /** One step of Split: the first character either ends the first piece or extends it. */
  lemma SplitCons(c: char, t: string, sep: char)
    ensures Split([c] + t, sep) ==
      if c == sep then [[]] + Split(t, sep) else [[c] + Split(t, sep)[0]] + Split(t, sep)[1..]
  {
    assert ([c] + t)[0] == c && ([c] + t)[1..] == t;
  }

  /** Splitting at a separator splits the two sides independently. */
  lemma {:induction false} SplitAround(a: string, sep: char, b: string)
    ensures Split(a + [sep] + b, sep) == Split(a, sep) + Split(b, sep)
  {
    if a == [] {
      SplitCons(sep, b, sep);
      assert a + [sep] + b == [sep] + b;
    } else {
      var c, tail := a[0], a[1..];
      SplitAround(tail, sep, b);
      assert a == [c] + tail;
      assert a + [sep] + b == [c] + (tail + [sep] + b);
      SplitCons(c, tail, sep);
      SplitCons(c, tail + [sep] + b, sep);
      var restA, restB := Split(tail, sep), Split(b, sep);
      if c == sep {
        ConsAppend([], restA, restB);
      } else {
        AppendTail(restA, restB);
        ConsAppend([c] + restA[0], restA[1..], restB);
      }
    }
  }

  lemma ConsAppend(x: string, xs: seq<string>, ys: seq<string>)
    ensures ([x] + xs) + ys == [x] + (xs + ys)
  {
  }

  lemma AppendTail(xs: seq<string>, ys: seq<string>)
    requires |xs| >= 1
    ensures (xs + ys)[0] == xs[0] && (xs + ys)[1..] == xs[1..] + ys
  {
  }

  /** Split is the only separator-free decomposition that joins back to the text. */
  lemma {:induction false} SplitJoin(pieces: seq<string>, sep: char)
    requires |pieces| >= 1
    requires forall i :: 0 <= i < |pieces| ==> sep !in pieces[i]
    ensures Split(Join(pieces, sep), sep) == pieces
  {
    SplitNoSeparator(pieces[0], sep);
    if |pieces| > 1 {
      SplitJoin(pieces[1..], sep);
      SplitAround(pieces[0], sep, Join(pieces[1..], sep));
    }
  }

  /**
    `s.substr(start, length)` for a non-negative start: at most `length`
    characters from `start`, and the empty string past the end.
  */
  function Substr(s: string, start: nat, length: nat): (r: string)
    ensures |r| == if start < |s| then Min(length, |s| - start) else 0
    ensures start < |s| ==> r == s[start..start + |r|]
  {
    var from := Min(start, |s|);
    s[from..Min(from + length, |s|)]
  }

  /** `s.substr(start)`: everything from `start` on. */
  function SubstrToEnd(s: string, start: nat): (r: string)
    ensures start < |s| ==> r == s[start..]
    ensures start >= |s| ==> r == []
  {
    Substr(s, start, |s|)
  }

  /** `xs.filter((i) => i)` on strings: the non-empty ones, in order. */
  function FilterTruthy(xs: seq<string>): (r: seq<string>)
    ensures |r| <= |xs|
    ensures forall i :: 0 <= i < |r| ==> r[i] != []
    ensures forall x :: x != [] ==> multiset(r)[x] == multiset(xs)[x]
  {
    if xs == [] then []
    else
      assert xs == [xs[0]] + xs[1..];
      (if xs[0] != [] then [xs[0]] else []) + FilterTruthy(xs[1..])
  }

  lemma {:induction false} FilterTruthyAppend(xs: seq<string>, ys: seq<string>)
    ensures FilterTruthy(xs + ys) == FilterTruthy(xs) + FilterTruthy(ys)
  {
    if xs != [] {
      assert (xs + ys)[0] == xs[0] && (xs + ys)[1..] == xs[1..] + ys;
      FilterTruthyAppend(xs[1..], ys);
      var head := if xs[0] != [] then [xs[0]] else [];
      assert FilterTruthy(xs + ys) == head + FilterTruthy(xs[1..] + ys);
    } else {
      assert xs + ys == ys;
    }
  }

  lemma {:induction false} FilterTruthyKeepsNonEmpty(xs: seq<string>)
    requires forall i :: 0 <= i < |xs| ==> xs[i] != []
    ensures FilterTruthy(xs) == xs
  {
    if xs != [] {
      FilterTruthyKeepsNonEmpty(xs[1..]);
    }
  }
}
