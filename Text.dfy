/**
 * Joining and splitting strings on the separator ", ", the way the catalog
 * splits its `authors` and `tags` fields (Foundation's
 * `components(separatedBy:)`) and the way the book labels join names.
 */
module Text {

  /** The separator used both for splitting catalog fields and for joining labels. */
  const Sep: string := ", "

  /** `s` contains no occurrence of the separator. */
  predicate NoSep(s: string) {
    forall i :: 0 <= i < |s| - 1 ==> !(s[i] == ',' && s[i + 1] == ' ')
  }

  /** The names in order, with the separator between neighbours and nowhere else. */
  function Join(xs: seq<string>): (r: string)
    decreases |xs|
  {
    if |xs| == 0 then ""
    else if |xs| == 1 then xs[0]
    else Join(xs[..|xs| - 1]) + Sep + xs[|xs| - 1]
  }

  /**
   * The pieces of `s` between the separators, scanned from the left, with no
   * trimming: the empty string gives one empty piece, and a separator at an
   * end gives an empty piece there.
   */
  function Split(s: string): (r: seq<string>)
    ensures |r| >= 1
    decreases |s|
  {
    if |s| == 0 then [""]
    else if |s| >= 2 && s[0] == ',' && s[1] == ' ' then [""] + Split(s[2..])
    else
      var t := Split(s[1..]);
      [[s[0]] + t[0]] + t[1..]
  }

  /** Joining a list that starts with `x`: `x`, a separator, then the rest joined. */
  lemma {:induction false} JoinCons(x: string, xs: seq<string>)
    requires |xs| >= 1
    ensures Join([x] + xs) == x + Sep + Join(xs)
    decreases |xs|
  {
    if |xs| > 1 {
      var n := |xs|;
      assert ([x] + xs)[..n] == [x] + xs[..n - 1];
      JoinCons(x, xs[..n - 1]);
    }
  }

  /** Joining the pieces of a split gives back the original string. */
  lemma {:induction false} JoinSplit(s: string)
    ensures Join(Split(s)) == s
    decreases |s|
  {
    if |s| == 0 {
      assert Split(s) == [""];
    } else if |s| >= 2 && s[0] == ',' && s[1] == ' ' {
      JoinSplit(s[2..]);
      JoinSplitAtSep(s);
    } else {
      JoinSplit(s[1..]);
      JoinSplitAtChar(s);
    }
  }

  /** The step of JoinSplit for a string that starts with the separator. */
  lemma JoinSplitAtSep(s: string)
    requires |s| >= 2 && s[0] == ',' && s[1] == ' '
    requires Join(Split(s[2..])) == s[2..]
    ensures Join(Split(s)) == s
  {
    var t := Split(s[2..]);
    calc {
      Join(Split(s));
      { assert Split(s) == [""] + t; }
      Join([""] + t);
      { JoinCons("", t); }
      "" + Sep + Join(t);
      "" + Sep + s[2..];
      { SepThenRest(s); }
      s;
    }
  }

  /** A string that starts with the separator is the separator and the rest. */
  lemma SepThenRest(s: string)
    requires |s| >= 2 && s[0] == ',' && s[1] == ' '
    ensures "" + Sep + s[2..] == s
  {
    assert s[..2] == Sep;
    assert s == s[..2] + s[2..];
  }

  /** The step of JoinSplit for a string that does not start with the separator. */
  lemma JoinSplitAtChar(s: string)
    requires |s| >= 1 && !(|s| >= 2 && s[0] == ',' && s[1] == ' ')
    requires Join(Split(s[1..])) == s[1..]
    ensures Join(Split(s)) == s
  {
    var t := Split(s[1..]);
    assert Split(s) == [[s[0]] + t[0]] + t[1..];
    assert t == [t[0]] + t[1..];
    JoinOntoFirst(s[0], t[0], t[1..]);
    assert s == [s[0]] + s[1..];
  }

  /** Putting a character in front of the first piece puts it in front of the join. */
  lemma JoinOntoFirst(c: char, x: string, rest: seq<string>)
    ensures Join([[c] + x] + rest) == [c] + Join([x] + rest)
  {
    if rest != [] {
      var j := Join(rest);
      calc {
        Join([[c] + x] + rest);
        { JoinCons([c] + x, rest); }
        [c] + x + Sep + j;
        { Regroup([c], x, Sep, j); }
        [c] + (x + Sep + j);
        { JoinCons(x, rest); }
        [c] + Join([x] + rest);
      }
    }
  }

  /** Concatenation regrouped: four strings, outer pair peeled off. */
  lemma Regroup(a: string, b: string, c: string, d: string)
    ensures a + b + c + d == a + (b + c + d)
  {
  }

  /** The first piece of a split is a prefix of the string. */
  lemma {:induction false} SplitHeadIsPrefix(s: string)
    ensures |Split(s)[0]| <= |s| && Split(s)[0] == s[..|Split(s)[0]|]
    decreases |s|
  {
    if |s| >= 2 && s[0] == ',' && s[1] == ' ' {
    } else if |s| > 0 {
      SplitHeadIsPrefix(s[1..]);
    }
  }

  /** No piece of a split contains the separator. */
  lemma {:induction false} SplitPiecesNoSep(s: string)
    ensures forall x <- Split(s) :: NoSep(x)
    decreases |s|
  {
    if |s| == 0 {
    } else if |s| >= 2 && s[0] == ',' && s[1] == ' ' {
      SplitPiecesNoSep(s[2..]);
    } else {
      var t := Split(s[1..]);
      SplitPiecesNoSep(s[1..]);
      SplitHeadIsPrefix(s[1..]);
      var head := [s[0]] + t[0];
      assert NoSep(t[0]);
      forall i | 0 <= i < |head| - 1
        ensures !(head[i] == ',' && head[i + 1] == ' ')
      {
        if i == 0 {
          assert head[1] == t[0][0] == s[1];
        } else {
          assert head[i] == t[0][i - 1] && head[i + 1] == t[0][i];
        }
      }
    }
  }

  /** Dropping the first character keeps a string free of the separator. */
  lemma NoSepTail(x: string)
    requires |x| >= 1 && NoSep(x)
    ensures NoSep(x[1..])
  {
    forall i | 0 <= i < |x[1..]| - 1
      ensures !(x[1..][i] == ',' && x[1..][i + 1] == ' ')
    {
      assert x[1..][i] == x[i + 1] && x[1..][i + 1] == x[i + 2];
    }
  }

  /**
   * A non-empty separator-free piece followed by text that is empty or
   * starts with ',' does not start with the separator.
   */
  lemma NotAtSep(x: string, t: string)
    requires |x| >= 1 && NoSep(x)
    requires t == "" || t[0] == ','
    ensures var u := x + t; !(|u| >= 2 && u[0] == ',' && u[1] == ' ')
  {
    var u := x + t;
    if |u| >= 2 {
      if |x| >= 2 {
        assert u[0] == x[0] && u[1] == x[1];
      } else {
        assert u[1] == t[0];
      }
    }
  }

  /**
   * A piece free of the separator, followed by text that is empty or starts
   * with ',', becomes the head of the first piece.
   */
  lemma {:induction false} SplitPrefix(x: string, t: string)
    requires NoSep(x)
    requires t == "" || t[0] == ','
    ensures Split(x + t) == [x + Split(t)[0]] + Split(t)[1..]
    decreases |x|
  {
    var r := Split(t);
    if |x| == 0 {
      assert x + t == t;
      assert x + r[0] == r[0];
      assert r == [r[0]] + r[1..];
    } else {
      var u := x + t;
      NotAtSep(x, t);
      NoSepTail(x);
      assert u[1..] == x[1..] + t;
      var w := Split(u[1..]);
      assert Split(u) == [[u[0]] + w[0]] + w[1..];
      SplitPrefix(x[1..], t);
      assert [u[0]] + w[0] == x + r[0] by {
        assert x == [x[0]] + x[1..];
      }
    }
  }

  /** Splitting a join of separator-free names gives back exactly those names. */
  lemma {:induction false} SplitJoin(xs: seq<string>)
    requires |xs| >= 1
    requires forall x <- xs :: NoSep(x)
    ensures Split(Join(xs)) == xs
    decreases |xs|
  {
    if |xs| == 1 {
      SplitPrefix(xs[0], "");
      assert xs[0] + "" == xs[0];
      assert Split("") == [""];
    } else {
      var rest := xs[1..];
      var t := Sep + Join(rest);
      assert Join(xs) == xs[0] + t by {
        assert xs == [xs[0]] + rest;
        JoinCons(xs[0], rest);
        Regroup(xs[0], Sep, Join(rest), "");
      }
      assert Split(t) == [""] + rest by {
        assert t[2..] == Join(rest);
        SplitJoin(rest);
      }
      assert Split(xs[0] + t) == [xs[0]] + rest by {
        SplitPrefix(xs[0], t);
        assert xs[0] + "" == xs[0];
      }
    }
  }
}
