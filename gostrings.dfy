/**
 * The few operations of Go's `strings` and `bytes` packages that the program
 * relies on, on strings of characters: splitting and joining on a one-character
 * separator, trimming a character from both ends and removing every occurrence
 * of a character.
 */
module GoStrings {

  /** `strings.Split(s, sep)` / `bytes.Split` with a one-character separator.
      The result is never empty: splitting "" gives [""]. */
  function Split(s: string, sep: char): (r: seq<string>)
    ensures |r| >= 1
    decreases |s|
  {
    if |s| == 0 then [""]
    else if s[0] == sep then [""] + Split(s[1..], sep)
    else
      var t := Split(s[1..], sep);
      [[s[0]] + t[0]] + t[1..]
  }

  /** `strings.Join(xs, sep)` / `bytes.Join` with a one-character separator. */
  function Join(xs: seq<string>, sep: char): string
    decreases |xs|
  {
    if |xs| == 0 then ""
    else if |xs| == 1 then xs[0]
    else xs[0] + [sep] + Join(xs[1..], sep)
  }

  /** Joining the pieces of a split gives the string back. */
  lemma {:induction false} JoinSplit(s: string, sep: char)
    ensures Join(Split(s, sep), sep) == s
    decreases |s|
  {
    if |s| > 0 {
      var x, rest := s[0], s[1..];
      assert s == [x] + rest;
      JoinSplit(rest, sep);
      if x == sep {
        SplitConsSep(x, rest, sep);
        JoinCons("", Split(rest, sep), sep);
      } else {
        SplitConsOther(x, rest, sep);
        JoinGlue(x, Split(rest, sep), sep);
      }
    }
  }

  /** Joining a piece in front of at least one other adds one separator. */
  lemma JoinCons(y: string, t: seq<string>, sep: char)
    requires |t| >= 1
    ensures Join([y] + t, sep) == y + [sep] + Join(t, sep)
  {
    assert ([y] + t)[0] == y && ([y] + t)[1..] == t;
  }

  /** Joining glued pieces puts `x` in front of the joined string. */
  lemma JoinGlue(x: char, t: seq<string>, sep: char)
    requires |t| >= 1
    ensures Join(Glue(x, t), sep) == [x] + Join(t, sep)
  {
    if |t| > 1 {
      JoinCons([x] + t[0], t[1..], sep);
      JoinCons(t[0], t[1..], sep);
      assert t == [t[0]] + t[1..];
    }
  }

  /** Splitting a join of separator-free pieces gives the pieces back. */
  lemma {:induction false} SplitJoin(xs: seq<string>, sep: char)
    requires |xs| >= 1
    requires forall i :: 0 <= i < |xs| ==> sep !in xs[i]
    ensures Split(Join(xs, sep), sep) == xs
    decreases |xs|
  {
    if |xs| == 1 {
      SplitFree(xs[0], sep);
    } else {
      SplitJoin(xs[1..], sep);
      SplitConcat(xs[0], Join(xs[1..], sep), sep);
      SplitFree(xs[0], sep);
      assert xs == [xs[0]] + xs[1..];
    }
  }

  /** A string without the separator splits into itself alone. */
  lemma {:induction false} SplitFree(s: string, sep: char)
    requires sep !in s
    ensures Split(s, sep) == [s]
    decreases |s|
  {
    if |s| > 0 {
      SplitFree(s[1..], sep);
      assert s == [s[0]] + s[1..];
    }
  }

  /** The pieces of `[x] + rest` when `x` is not the separator: `x` joins the first piece. */
  function Glue(x: char, pieces: seq<string>): seq<string>
    requires |pieces| >= 1
  {
    [[x] + pieces[0]] + pieces[1..]
  }

  lemma GlueAppend(x: char, p: seq<string>, q: seq<string>)
    requires |p| >= 1
    ensures Glue(x, p + q) == Glue(x, p) + q
  {
    assert (p + q)[0] == p[0] && (p + q)[1..] == p[1..] + q;
  }

  /** Splitting a string that starts with the separator: an empty first piece. */
  lemma SplitConsSep(x: char, rest: string, sep: char)
    requires x == sep
    ensures Split([x] + rest, sep) == [""] + Split(rest, sep)
  {
    assert ([x] + rest)[0] == x && ([x] + rest)[1..] == rest;
  }

  /** Splitting a string that starts with another character: it joins the first piece. */
  lemma SplitConsOther(x: char, rest: string, sep: char)
    requires x != sep
    ensures Split([x] + rest, sep) == Glue(x, Split(rest, sep))
  {
    assert ([x] + rest)[0] == x && ([x] + rest)[1..] == rest;
  }

  /** A separator cuts the string in two: the pieces of each side, side by side. */
  lemma {:induction false} SplitConcat(a: string, b: string, sep: char)
    ensures Split(a + [sep] + b, sep) == Split(a, sep) + Split(b, sep)
    decreases |a|
  {
    if |a| == 0 {
      assert a + [sep] + b == [sep] + b;
      SplitConsSep(sep, b, sep);
    } else {
      SplitConcat(a[1..], b, sep);
      assert a + [sep] + b == [a[0]] + (a[1..] + [sep] + b);
      assert a == [a[0]] + a[1..];
      if a[0] == sep {
        SplitConcatSep(a[0], a[1..], b, sep);
      } else {
        SplitConcatOther(a[0], a[1..], b, sep);
      }
    }
  }

  /** The inductive step of SplitConcat for a leading separator. */
  lemma SplitConcatSep(x: char, a: string, b: string, sep: char)
    requires x == sep
    requires Split(a + [sep] + b, sep) == Split(a, sep) + Split(b, sep)
    ensures Split([x] + (a + [sep] + b), sep) == Split([x] + a, sep) + Split(b, sep)
  {
    SplitConsSep(x, a + [sep] + b, sep);
    SplitConsSep(x, a, sep);
    var u, v := Split(a, sep), Split(b, sep);
    assert [""] + (u + v) == ([""] + u) + v;
  }

  /** The inductive step of SplitConcat for another leading character. */
  lemma SplitConcatOther(x: char, a: string, b: string, sep: char)
    requires x != sep
    requires Split(a + [sep] + b, sep) == Split(a, sep) + Split(b, sep)
    ensures Split([x] + (a + [sep] + b), sep) == Split([x] + a, sep) + Split(b, sep)
  {
    SplitConsOther(x, a + [sep] + b, sep);
    SplitConsOther(x, a, sep);
    GlueAppend(x, Split(a, sep), Split(b, sep));
  }

  /** `strings.Join(xs + [y], sep)` puts the separator before `y` unless `xs` is empty. */
  lemma {:induction false} JoinSnoc(xs: seq<string>, y: string, sep: char)
    ensures Join(xs + [y], sep) == if |xs| == 0 then y else Join(xs, sep) + [sep] + y
    decreases |xs|
  {
    if |xs| == 0 {
      assert xs + [y] == [y];
    } else if |xs| == 1 {
      assert xs + [y] == [xs[0], y];
    } else {
      JoinSnoc(xs[1..], y, sep);
      assert (xs + [y])[1..] == xs[1..] + [y];
    }
  }

  /** The leading run of `c` removed (the left half of `bytes.Trim` with a one-byte cut set). */
  function TrimLeft(s: string, c: char): string
    decreases |s|
  {
    if |s| > 0 && s[0] == c then TrimLeft(s[1..], c) else s
  }

  /** The trailing run of `c` removed. */
  function TrimRight(s: string, c: char): string
    decreases |s|
  {
    if |s| > 0 && s[|s| - 1] == c then TrimRight(s[..|s| - 1], c) else s
  }

  /** `bytes.Trim(s, string(c))`: every leading and trailing `c` removed. */
  function Trim(s: string, c: char): string {
    TrimRight(TrimLeft(s, c), c)
  }

  /** `bytes.Replace(s, string(c), nil, -1)`: every occurrence of `c` removed, the rest kept in order. */
  function Remove(s: string, c: char): string
    decreases |s|
  {
    if |s| == 0 then ""
    else if s[0] == c then Remove(s[1..], c)
    else [s[0]] + Remove(s[1..], c)
  }

  /** No piece of a split holds the separator. */
  lemma {:induction false} SplitPieces(s: string, sep: char)
    ensures forall i :: 0 <= i < |Split(s, sep)| ==> sep !in Split(s, sep)[i]
    decreases |s|
  {
    if |s| > 0 {
      SplitPieces(s[1..], sep);
      var t := Split(s[1..], sep);
      if s[0] != sep {
        assert sep !in [s[0]] + t[0];
      }
    }
  }

  /** TrimLeft removes exactly the leading run of `c`: what is left is a suffix that does
      not start with `c`, and everything before it is `c`. */
  lemma {:induction false} TrimLeftSpec(s: string, c: char)
    ensures var r := TrimLeft(s, c);
      |r| <= |s| && r == s[|s| - |r|..] &&
      (forall i :: 0 <= i < |s| - |r| ==> s[i] == c) &&
      (r == [] || r[0] != c)
    decreases |s|
  {
    if |s| > 0 && s[0] == c {
      TrimLeftSpec(s[1..], c);
    }
  }

  /** TrimRight removes exactly the trailing run of `c`. */
  lemma {:induction false} TrimRightSpec(s: string, c: char)
    ensures var r := TrimRight(s, c);
      |r| <= |s| && r == s[..|r|] &&
      (forall i :: |r| <= i < |s| ==> s[i] == c) &&
      (r == [] || r[|r| - 1] != c)
    decreases |s|
  {
    if |s| > 0 && s[|s| - 1] == c {
      TrimRightSpec(s[..|s| - 1], c);
    }
  }

  /** Trimming leaves nothing exactly when the string is made of `c` only, and otherwise
      leaves a string that neither starts nor ends with `c`; what is left is a slice of
      the input with nothing but `c` on either side of it. */
  lemma TrimSpec(s: string, c: char)
    ensures Trim(s, c) == [] <==> forall i :: 0 <= i < |s| ==> s[i] == c
    ensures Trim(s, c) != [] ==> Trim(s, c)[0] != c && Trim(s, c)[|Trim(s, c)| - 1] != c
    ensures exists i, j ::
      && 0 <= i <= j <= |s|
      && Trim(s, c) == s[i..j]
      && (forall k :: 0 <= k < i || j <= k < |s| ==> s[k] == c)
  {
    var l := TrimLeft(s, c);
    TrimLeftSpec(s, c);
    TrimRightSpec(l, c);
    var r := TrimRight(l, c);
    if r != [] {
      assert r[0] == l[0];
    }
    var i := |s| - |l|;
    var j := i + |r|;
    assert r == s[i..j];
    forall k | 0 <= k < i || j <= k < |s|
      ensures s[k] == c
    {
      if j <= k {
        assert s[k] == l[k - i];
      }
    }
  }

  /** `Remove` leaves no `c` and changes nothing in a string without `c`. */
  lemma {:induction false} RemoveSpec(s: string, c: char)
    ensures c !in Remove(s, c)
    ensures c !in s ==> Remove(s, c) == s
    decreases |s|
  {
    if |s| > 0 {
      RemoveSpec(s[1..], c);
      if s[0] != c {
        assert s == [s[0]] + s[1..];
      }
    }
  }

  /** Removing from a concatenation removes from each part, so order is kept. */
  lemma {:induction false} RemoveAppend(a: string, b: string, c: char)
    ensures Remove(a + b, c) == Remove(a, c) + Remove(b, c)
    decreases |a|
  {
    if |a| > 0 {
      assert (a + b)[1..] == a[1..] + b;
      RemoveAppend(a[1..], b, c);
    } else {
      assert a + b == b;
    }
  }

  /** A single character is dropped if it is `c` and kept otherwise; with `RemoveAppend`
      this fixes `Remove` on every string. */
  lemma RemoveChar(x: char, c: char)
    ensures Remove([x], c) == if x == c then [] else [x]
  {
    assert [x][1..] == [];
  }

  /** `Remove` keeps every character other than `c`. */
  lemma {:induction false} RemoveKeeps(s: string, c: char)
    ensures forall x :: x in Remove(s, c) <==> x in s && x != c
    decreases |s|
  {
    if |s| > 0 {
      RemoveKeeps(s[1..], c);
      assert forall x :: x in s <==> x == s[0] || x in s[1..];
      if s[0] != c {
        assert forall x :: x in [s[0]] + Remove(s[1..], c) <==> x == s[0] || x in Remove(s[1..], c);
      }
    }
  }
}
