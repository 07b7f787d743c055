/**
 * Splitting a string on one delimiter character, as the tokenizer does with
 * .NET's `String.Split`: `Fragments` is what `Split` returns with no options
 * (empty pieces kept), `SplitNonEmpty` what it returns with
 * `StringSplitOptions.RemoveEmptyEntries`.
 */
module StringSplit {

  /** The pieces of `t` between occurrences of `d`, in order, empty pieces included. */
  function Fragments(t: string, d: char): (r: seq<string>)
    ensures |r| >= 1
    ensures forall i :: 0 <= i < |r| ==> d !in r[i]
  {
    if |t| == 0 then [""]
    else
      var rest := Fragments(t[1..], d);
      if t[0] == d then [""] + rest
      else [[t[0]] + rest[0]] + rest[1..]
  }

  /** The pieces `fs` glued back together with one `d` between neighbours. */
  function Join(fs: seq<string>, d: char): (r: string)
  {
    if |fs| == 0 then ""
    else if |fs| == 1 then fs[0]
    else fs[0] + [d] + Join(fs[1..], d)
  }

  /** `fs` without its empty strings, in the same order. */
  function NonEmpty(fs: seq<string>): (r: seq<string>)
    ensures |r| <= |fs|
    ensures forall i :: 0 <= i < |r| ==> r[i] != "" && r[i] in fs
  {
    if |fs| == 0 then []
    else if fs[0] == "" then NonEmpty(fs[1..])
    else [fs[0]] + NonEmpty(fs[1..])
  }

  /** `String.Split` on `d` with `RemoveEmptyEntries`: every piece is a non-empty run of non-delimiters. */
  function SplitNonEmpty(t: string, d: char): (r: seq<string>)
    ensures forall i :: 0 <= i < |r| ==> r[i] != "" && d !in r[i]
  {
    NonEmpty(Fragments(t, d))
  }

  /** All the strings of `ws`, one after the other. */
  function Concat(ws: seq<string>): (r: string)
  {
    if |ws| == 0 then "" else ws[0] + Concat(ws[1..])
  }

  /** `t` with every occurrence of `d` removed. */
  function Erase(t: string, d: char): (r: string)
  {
    if |t| == 0 then "" else (if t[0] == d then "" else [t[0]]) + Erase(t[1..], d)
  }

  /** Splitting without options loses nothing: joining the fragments gives the text back. */
  lemma {:induction false} JoinFragments(t: string, d: char)
    ensures Join(Fragments(t, d), d) == t
  {
    if |t| > 0 {
      var rest := Fragments(t[1..], d);
      JoinFragments(t[1..], d);
      assert t == [t[0]] + t[1..];
      if t[0] == d {
        assert ([""] + rest)[1..] == rest;
      } else {
        var fs := [[t[0]] + rest[0]] + rest[1..];
        assert fs[1..] == rest[1..];
        if |rest| > 1 {
          assert Join(rest, d) == rest[0] + [d] + Join(rest[1..], d);
        }
      }
    }
  }

  /** A delimiter-free prefix only lengthens the first fragment. */
  lemma {:induction false} FragmentsOfPrefix(w: string, s: string, d: char)
    requires d !in w
    ensures Fragments(w + s, d) == [w + Fragments(s, d)[0]] + Fragments(s, d)[1..]
  {
    if |w| == 0 {
      var f := Fragments(s, d);
      assert w + s == s && w + f[0] == f[0];
      assert f == [f[0]] + f[1..];
    } else {
      assert (w + s)[0] == w[0];
      assert (w + s)[1..] == w[1..] + s;
      FragmentsOfPrefix(w[1..], s, d);
      assert [w[0]] + (w[1..] + Fragments(s, d)[0]) == w + Fragments(s, d)[0];
    }
  }

  /** Splitting recovers delimiter-free pieces joined with the delimiter. */
  lemma {:induction false} FragmentsOfJoin(fs: seq<string>, d: char)
    requires |fs| >= 1
    requires forall i :: 0 <= i < |fs| ==> d !in fs[i]
    ensures Fragments(Join(fs, d), d) == fs
  {
    if |fs| == 1 {
      FragmentsOfPrefix(fs[0], "", d);
      assert fs[0] + "" == fs[0];
    } else {
      var j := Join(fs[1..], d);
      FragmentsOfJoin(fs[1..], d);
      assert ([d] + j)[0] == d;
      assert ([d] + j)[1..] == j;
      assert Fragments([d] + j, d) == [""] + fs[1..];
      FragmentsOfPrefix(fs[0], [d] + j, d);
      assert fs[0] + [d] + j == fs[0] + ([d] + j);
      assert fs[0] + "" == fs[0];
      assert fs == [fs[0]] + fs[1..];
    }
  }

  /** Removing empty strings from a list that has none changes nothing. */
  lemma {:induction false} NonEmptyKeeps(fs: seq<string>)
    requires forall i :: 0 <= i < |fs| ==> fs[i] != ""
    ensures NonEmpty(fs) == fs
  {
    if |fs| > 0 {
      NonEmptyKeeps(fs[1..]);
    }
  }

  /** Round trip: non-empty, delimiter-free tokens joined with the delimiter split back into themselves. */
  lemma SplitJoin(ws: seq<string>, d: char)
    requires forall i :: 0 <= i < |ws| ==> ws[i] != "" && d !in ws[i]
    ensures SplitNonEmpty(Join(ws, d), d) == ws
  {
    if |ws| == 0 {
      assert Fragments("", d) == [""];
    } else {
      FragmentsOfJoin(ws, d);
      NonEmptyKeeps(ws);
    }
  }

  /** Text without the delimiter is one token, or none when it is empty. */
  lemma SplitWithoutDelimiter(t: string, d: char)
    requires d !in t
    ensures SplitNonEmpty(t, d) == if t == "" then [] else [t]
  {
    FragmentsOfJoin([t], d);
    assert Join([t], d) == t;
  }

  /** A text holding any character other than the delimiter splits into at least one token. */
  lemma {:induction false} SplitHasToken(t: string, d: char, k: nat)
    requires k < |t| && t[k] != d
    ensures |SplitNonEmpty(t, d)| > 0
  {
    var rest := Fragments(t[1..], d);
    if t[0] == d {
      assert ([""] + rest)[1..] == rest;
      SplitHasToken(t[1..], d, k - 1);
    } else {
      assert Fragments(t, d)[0] != "";
    }
  }

  /** A delimiter ends one fragment: the pieces on either side of it are split independently. */
  lemma FragmentsAtDelimiter(a: string, b: string, d: char)
    ensures Fragments(a + [d] + b, d) == Fragments(a, d) + Fragments(b, d)
  {
    var fa, fb := Fragments(a, d), Fragments(b, d);
    JoinFragments(a, d);
    JoinFragments(b, d);
    JoinAppend(fa, fb, d);
    FragmentsOfJoin(fa + fb, d);
  }

  /** Joining two non-empty lists of pieces puts one delimiter between their joins. */
  lemma {:induction false} JoinAppend(x: seq<string>, y: seq<string>, d: char)
    requires |x| >= 1 && |y| >= 1
    ensures Join(x + y, d) == Join(x, d) + [d] + Join(y, d)
  {
    var xy := x + y;
    assert xy[0] == x[0];
    if |x| > 1 {
      assert xy[1..] == x[1..] + y;
      JoinAppend(x[1..], y, d);
      assert Join(xy, d) == x[0] + [d] + (Join(x[1..], d) + [d] + Join(y, d));
    } else {
      assert xy[1..] == y;
    }
  }

  /** Removing empty strings works piecewise: the result for a concatenation is the concatenation of the results. */
  lemma {:induction false} NonEmptyAppend(x: seq<string>, y: seq<string>)
    ensures NonEmpty(x + y) == NonEmpty(x) + NonEmpty(y)
  {
    if |x| == 0 {
      assert x + y == y;
    } else {
      assert (x + y)[0] == x[0];
      assert (x + y)[1..] == x[1..] + y;
      NonEmptyAppend(x[1..], y);
      if x[0] != "" {
        assert [x[0]] + (NonEmpty(x[1..]) + NonEmpty(y)) == ([x[0]] + NonEmpty(x[1..])) + NonEmpty(y);
      }
    }
  }

  /**
   * Tokens never span a delimiter: the tokens of a text are those of the part
   * before any one delimiter followed by those of the part after it. With
   * `SplitWithoutDelimiter` this fixes the tokens of every text, so leading,
   * trailing and repeated delimiters contribute no token.
   */
  lemma SplitAtDelimiter(a: string, b: string, d: char)
    ensures SplitNonEmpty(a + [d] + b, d) == SplitNonEmpty(a, d) + SplitNonEmpty(b, d)
  {
    FragmentsAtDelimiter(a, b, d);
    NonEmptyAppend(Fragments(a, d), Fragments(b, d));
  }

  /** Consecutive delimiters collapse: doubling a delimiter changes no token. */
  lemma RepeatedDelimiterCollapses(a: string, b: string, d: char)
    ensures SplitNonEmpty(a + [d, d] + b, d) == SplitNonEmpty(a + [d] + b, d)
  {
    SplitAtDelimiter(a, [d] + b, d);
    SplitAtDelimiter("", b, d);
    SplitWithoutDelimiter("", d);
    assert a + [d, d] + b == a + [d] + ([d] + b);
    assert "" + [d] + b == [d] + b;
    SplitAtDelimiter(a, b, d);
  }

  /** Dropping empty strings does not change the concatenation. */
  lemma {:induction false} ConcatNonEmpty(fs: seq<string>)
    ensures Concat(NonEmpty(fs)) == Concat(fs)
  {
    if |fs| > 0 {
      ConcatNonEmpty(fs[1..]);
      if fs[0] != "" {
        assert ([fs[0]] + NonEmpty(fs[1..]))[1..] == NonEmpty(fs[1..]);
      }
    }
  }

  /** The fragments hold exactly the characters of the text that are not the delimiter, in order. */
  lemma {:induction false} ConcatFragments(t: string, d: char)
    ensures Concat(Fragments(t, d)) == Erase(t, d)
  {
    if |t| > 0 {
      var rest := Fragments(t[1..], d);
      ConcatFragments(t[1..], d);
      if t[0] == d {
        assert ([""] + rest)[1..] == rest;
      } else {
        var fs := [[t[0]] + rest[0]] + rest[1..];
        assert fs[1..] == rest[1..];
        assert Concat(rest) == rest[0] + Concat(rest[1..]);
      }
    }
  }

  /** No character but the delimiter is lost: the tokens, concatenated, are the text with the delimiters erased. */
  lemma SplitKeepsCharacters(t: string, d: char)
    ensures Concat(SplitNonEmpty(t, d)) == Erase(t, d)
  {
    ConcatNonEmpty(Fragments(t, d));
    ConcatFragments(t, d);
  }
}
