/** `Array.prototype.join` and splitting a text into lines: the two
    operations the draft layout and the thread body are built from. */
module Text {

  /** `xs.join(sep)`: the elements in order, `sep` between neighbours. */
  function Join(xs: seq<string>, sep: string): string
    decreases |xs|
  {
    if |xs| == 0 then ""
    else if |xs| == 1 then xs[0]
    else xs[0] + sep + Join(xs[1..], sep)
  }

  /** `s.split(c)` for a one-character separator: the maximal runs of
      characters other than `c`, in order; always at least one piece. */
  function Split(s: string, c: char): (pieces: seq<string>)
    ensures |pieces| >= 1
    ensures forall i :: 0 <= i < |pieces| ==> c !in pieces[i]
    decreases |s|
  {
    if |s| == 0 then [""]
    else
      var rest := Split(s[1..], c);
      if s[0] == c then [""] + rest
      else [[s[0]] + rest[0]] + rest[1..]
  }

  /** Total length of a list of strings. */
  function TotalLength(xs: seq<string>): nat
    decreases |xs|
  {
    if |xs| == 0 then 0 else |xs[0]| + TotalLength(xs[1..])
  }

  /** Where `xs[i]` starts in `Join(xs, "")`. */
  function Offset(xs: seq<string>, i: nat): nat
    requires i <= |xs|
  {
    TotalLength(xs[..i])
  }

  lemma {:induction false} JoinCons(x: string, xs: seq<string>, sep: string)
    requires |xs| >= 1
    ensures Join([x] + xs, sep) == x + sep + Join(xs, sep)
  {
    assert ([x] + xs)[1..] == xs;
  }

  /** Six elements joined: each followed by the separator but the last. */
  lemma JoinSix(a: string, b: string, c: string, d: string, e: string, f: string, sep: string)
    ensures Join([a, b, c, d, e, f], sep) == a + sep + b + sep + c + sep + d + sep + e + sep + f
  {
    var xs := [a, b, c, d, e, f];
    JoinCons(e, [f], sep);
    assert xs[4..] == [e] + [f];
    JoinCons(d, xs[4..], sep);
    assert xs[3..] == [d] + xs[4..];
    JoinCons(c, xs[3..], sep);
    assert xs[2..] == [c] + xs[3..];
    JoinCons(b, xs[2..], sep);
    assert xs[1..] == [b] + xs[2..];
    JoinCons(a, xs[1..], sep);
    assert xs == [a] + xs[1..];
  }

  /** A text without the separator splits into itself alone. */
  lemma {:induction false} SplitWithoutSeparator(s: string, c: char)
    requires c !in s
    ensures Split(s, c) == [s]
    decreases |s|
  {
    if |s| > 0 {
      SplitWithoutSeparator(s[1..], c);
      assert [s[0]] + s[1..] == s;
    }
  }

  /** A separator after a separator-free prefix ends the first piece there. */
  lemma {:induction false} SplitAfterPrefix(a: string, b: string, c: char)
    requires c !in a
    ensures Split(a + [c] + b, c) == [a] + Split(b, c)
    decreases |a|
  {
    var s := a + [c] + b;
    if |a| == 0 {
      assert s == [c] + b;
      assert s[1..] == b;
    } else {
      assert s[1..] == a[1..] + [c] + b;
      SplitAfterPrefix(a[1..], b, c);
      assert [a[0]] + a[1..] == a;
    }
  }

  /** Separator-free leading elements come back one by one from a split;
      only the last element, which may hold the separator, is split further. */
  lemma {:induction false} SplitJoinPrefix(xs: seq<string>, tail: string, c: char)
    requires forall i :: 0 <= i < |xs| ==> c !in xs[i]
    ensures Split(Join(xs + [tail], [c]), c) == xs + Split(tail, c)
    decreases |xs|
  {
    if |xs| == 0 {
      assert xs + [tail] == [tail];
    } else {
      var rest := xs[1..] + [tail];
      assert xs + [tail] == [xs[0]] + rest;
      JoinCons(xs[0], rest, [c]);
      SplitAfterPrefix(xs[0], Join(rest, [c]), c);
      SplitJoinPrefix(xs[1..], tail, c);
      assert [xs[0]] + (xs[1..] + Split(tail, c)) == xs + Split(tail, c);
    }
  }

  /** Splitting undoes joining when no element holds the separator. */
  lemma SplitJoin(xs: seq<string>, c: char)
    requires |xs| >= 1
    requires forall i :: 0 <= i < |xs| ==> c !in xs[i]
    ensures Split(Join(xs, [c]), c) == xs
  {
    var n := |xs| - 1;
    assert xs[..n] + [xs[n]] == xs;
    SplitJoinPrefix(xs[..n], xs[n], c);
    SplitWithoutSeparator(xs[n], c);
  }

  /** Joining two non-empty lists puts one separator between the halves. */
  lemma {:induction false} JoinAppend(xs: seq<string>, ys: seq<string>, sep: string)
    requires |xs| >= 1 && |ys| >= 1
    ensures Join(xs + ys, sep) == Join(xs, sep) + sep + Join(ys, sep)
    decreases |xs|
  {
    if |xs| == 1 {
      JoinCons(xs[0], ys, sep);
      assert xs + ys == [xs[0]] + ys;
    } else {
      JoinAppend(xs[1..], ys, sep);
      assert (xs + ys)[1..] == xs[1..] + ys;
    }
  }

  /** A character in neither the elements nor the separator is not in the join. */
  lemma {:induction false} JoinFreeOf(xs: seq<string>, sep: string, c: char)
    requires c !in sep
    requires forall i :: 0 <= i < |xs| ==> c !in xs[i]
    ensures c !in Join(xs, sep)
    decreases |xs|
  {
    if |xs| > 1 {
      JoinFreeOf(xs[1..], sep, c);
    }
  }

  /** Joining undoes splitting: no character of the text is lost or added. */
  lemma {:induction false} JoinSplit(s: string, c: char)
    ensures Join(Split(s, c), [c]) == s
    decreases |s|
  {
    if |s| > 0 {
      var rest := Split(s[1..], c);
      JoinSplit(s[1..], c);
      if s[0] == c {
        JoinCons("", rest, [c]);
        assert [c] + s[1..] == s;
      } else {
        var pieces := [[s[0]] + rest[0]] + rest[1..];
        if |rest| == 1 {
          assert pieces == [[s[0]] + rest[0]];
        } else {
          assert pieces[1..] == rest[1..];
          assert [rest[0]] + rest[1..] == rest;
          JoinCons(rest[0], rest[1..], [c]);
        }
        assert [s[0]] + s[1..] == s;
      }
    }
  }

  /** Joining with no separator is plain concatenation of the two halves. */
  lemma {:induction false} JoinEmptyAppend(xs: seq<string>, ys: seq<string>)
    ensures Join(xs + ys, "") == Join(xs, "") + Join(ys, "")
    decreases |xs|
  {
    if |xs| == 0 {
      assert xs + ys == ys;
    } else if |xs| == 1 && |ys| == 0 {
      assert xs + ys == xs;
    } else if |xs| == 1 {
      JoinCons(xs[0], ys, "");
      assert xs + ys == [xs[0]] + ys;
    } else {
      JoinEmptyAppend(xs[1..], ys);
      assert (xs + ys)[1..] == xs[1..] + ys;
    }
  }

  lemma {:induction false} TotalLengthAppend(xs: seq<string>, ys: seq<string>)
    ensures TotalLength(xs + ys) == TotalLength(xs) + TotalLength(ys)
    decreases |xs|
  {
    if |xs| == 0 {
      assert xs + ys == ys;
    } else {
      TotalLengthAppend(xs[1..], ys);
      assert (xs + ys)[1..] == xs[1..] + ys;
    }
  }

  /** Joining with no separator keeps every character: the length is the sum. */
  lemma {:induction false} JoinEmptyLength(xs: seq<string>)
    ensures |Join(xs, "")| == TotalLength(xs)
    decreases |xs|
  {
    if |xs| > 1 {
      JoinEmptyLength(xs[1..]);
    } else if |xs| == 1 {
      assert TotalLength(xs[1..]) == 0;
    }
  }

  /** Each element appears verbatim, in order, at its offset in the join. */
  lemma {:induction false} JoinEmptyAt(xs: seq<string>, i: nat)
    requires i < |xs|
    ensures Offset(xs, i) + |xs[i]| <= |Join(xs, "")|
    ensures Join(xs, "")[Offset(xs, i)..Offset(xs, i) + |xs[i]|] == xs[i]
  {
    var before, rest := xs[..i], xs[i + 1..];
    assert xs == before + [xs[i]] + rest;
    JoinEmptyAppend(before + [xs[i]], rest);
    JoinEmptyAppend(before, [xs[i]]);
    JoinEmptyLength(before);
  }
}
