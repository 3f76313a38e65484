/**
  The few functions of Go's `strings` package that the data layer relies on,
  over strings as sequences of Unicode scalar values (Go runes).
 */
module GoStrings {

  /** Go's `unicode.IsSpace`: the Unicode White_Space characters. */
  predicate IsSpace(c: char)
  {
    || c == ' ' || c == '\t' || c == '\n' || c == '\U{000B}' || c == '\U{000C}' || c == '\r'
    || c == '\U{0085}' || c == '\U{00A0}' || c == '\U{1680}'
    || ('\U{2000}' <= c <= '\U{200A}')
    || c == '\U{2028}' || c == '\U{2029}' || c == '\U{202F}' || c == '\U{205F}' || c == '\U{3000}'
  }

  /**
    Within Latin-1 the white space is exactly tab, line feed, vertical tab,
    form feed, carriage return, space, NEL (U+0085) and NBSP (U+00A0), as Go's
    `unicode.IsSpace` documents.
   */
  lemma SpaceInLatin1(c: char)
    requires c <= '\U{00FF}'
    ensures IsSpace(c) <==> c in "\t\n\U{000B}\U{000C}\r \U{0085}\U{00A0}"
  {
  }

  /**
    The characters a trim removes: the one character of a one-character
    cutset, as `strings.Trim(s, "-")` takes it, or the white space that
    `strings.TrimSpace` removes.
   */
  datatype CharClass = Only(c: char) | WhiteSpace

  predicate In(c: char, cls: CharClass)
  {
    match cls
    case Only(x) => c == x
    case WhiteSpace => IsSpace(c)
  }

  /** Every character of `s` is in `cls`. */
  predicate AllIn(s: string, cls: CharClass)
  {
    forall k :: 0 <= k < |s| ==> In(s[k], cls)
  }

  /** How many characters at the start of `s` are in `cls`. */
  function Leading(s: string, cls: CharClass): (n: nat)
    ensures n <= |s|
    ensures forall k :: 0 <= k < n ==> In(s[k], cls)
    ensures n < |s| ==> !In(s[n], cls)
    decreases |s|
  {
    if s != [] && In(s[0], cls) then 1 + Leading(s[1..], cls) else 0
  }

  /** How many characters at the end of `s` are in `cls`. */
  function Trailing(s: string, cls: CharClass): (n: nat)
    ensures n <= |s|
    ensures forall k :: |s| - n <= k < |s| ==> In(s[k], cls)
    ensures n < |s| ==> !In(s[|s| - n - 1], cls)
    decreases |s|
  {
    if s != [] && In(s[|s| - 1], cls) then 1 + Trailing(s[..|s| - 1], cls) else 0
  }

  /** `strings.TrimLeft`: drop the longest prefix of characters in `cls`. */
  function TrimLeft(s: string, cls: CharClass): (r: string)
    ensures r != [] ==> !In(r[0], cls)
  {
    s[Leading(s, cls)..]
  }

  /** `strings.TrimRight`: drop the longest suffix of characters in `cls`. */
  function TrimRight(s: string, cls: CharClass): (r: string)
    ensures r != [] ==> !In(r[|r| - 1], cls)
  {
    s[..|s| - Trailing(s, cls)]
  }

  /**
    `strings.Trim`: drop the characters in `cls` from both ends. Neither end
    of the result is in `cls`; `TrimMiddle` and `TrimOutside` show that the
    result is the middle of `s` with only characters of `cls` around it.
   */
  function Trim(s: string, cls: CharClass): (r: string)
    ensures |r| <= |s|
    ensures r != [] ==> !In(r[0], cls) && !In(r[|r| - 1], cls)
  {
    TrimRight(TrimLeft(s, cls), cls)
  }

  /** The result of a trim is the piece of `s` that starts after its leading characters of `cls`. */
  lemma TrimMiddle(s: string, cls: CharClass)
    ensures Leading(s, cls) + |Trim(s, cls)| <= |s|
    ensures Trim(s, cls) == s[Leading(s, cls)..Leading(s, cls) + |Trim(s, cls)|]
  {
  }

  /** Every character a trim removes is in `cls`. */
  lemma TrimOutside(s: string, cls: CharClass)
    ensures forall k :: 0 <= k < Leading(s, cls) ==> In(s[k], cls)
    ensures forall k :: Leading(s, cls) + |Trim(s, cls)| <= k < |s| ==> In(s[k], cls)
  {
    var i := Leading(s, cls);
    var l := TrimLeft(s, cls);
    var r := Trim(s, cls);
    forall k | i + |r| <= k < |s|
      ensures In(s[k], cls)
    {
      assert s[k] == l[k - i];
    }
  }

  /** Trimming leaves nothing exactly when every character is in the class. */
  lemma TrimEmpty(s: string, cls: CharClass)
    ensures Trim(s, cls) == [] <==> AllIn(s, cls)
  {
    TrimMiddle(s, cls);
    TrimOutside(s, cls);
    var i := Leading(s, cls);
    if Trim(s, cls) == [] {
      forall k | 0 <= k < |s|
        ensures In(s[k], cls)
      {
        if k < i {} else {}
      }
    } else {
      assert Trim(s, cls)[0] == s[i];
    }
  }

  /** Trimming keeps a string neither of whose ends is in the class. */
  lemma TrimKeeps(s: string, cls: CharClass)
    requires s != [] ==> !In(s[0], cls) && !In(s[|s| - 1], cls)
    ensures Trim(s, cls) == s
  {
    assert Leading(s, cls) == 0;
    assert TrimLeft(s, cls) == s;
    assert Trailing(s, cls) == 0;
  }

  /** `strings.TrimSpace`: the string with surrounding white space removed. */
  function TrimSpace(s: string): (r: string)
    ensures r == [] <==> AllIn(s, WhiteSpace)
    ensures r != [] ==> !IsSpace(r[0]) && !IsSpace(r[|r| - 1])
  {
    TrimEmpty(s, WhiteSpace);
    Trim(s, WhiteSpace)
  }

  /**
    Go's `strings.Split` for a one-character separator: the pieces of `s` between
    occurrences of `sep`. There is one piece more than there are separators;
    `SplitPieces` shows that no piece holds the separator, and `JoinSplit`
    that the pieces make up `s`.
   */
  function Split(s: string, sep: char): (r: seq<string>)
    ensures |r| == Count(s, sep) + 1
    decreases |s|
  {
    if s == [] then [[]]
    else
      var rest := Split(s[1..], sep);
      if s[0] == sep then [[]] + rest
      else [[s[0]] + rest[0]] + rest[1..]
  }

  /** No piece of a split holds the separator, and every character of a piece comes from `s`. */
  lemma {:induction false} SplitPieces(s: string, sep: char)
    ensures forall i :: 0 <= i < |Split(s, sep)| ==>
      sep !in Split(s, sep)[i] && forall c :: c in Split(s, sep)[i] ==> c in s
    decreases |s|
  {
    if s != [] {
      SplitPieces(s[1..], sep);
      var rest := Split(s[1..], sep);
      var r := Split(s, sep);
      assert forall c :: c in s[1..] ==> c in s;
      if s[0] == sep {
        assert forall i :: 1 <= i < |r| ==> r[i] == rest[i - 1];
      } else {
        assert forall i :: 1 <= i < |r| ==> r[i] == rest[i];
        assert r[0] == [s[0]] + rest[0];
      }
    }
  }

  /** The number of occurrences of `c` in `s`. */
  function Count(s: string, c: char): nat
    decreases |s|
  {
    if s == [] then 0 else (if s[0] == c then 1 else 0) + Count(s[1..], c)
  }

  /** Go's `strings.Join` for a one-character separator; the inverse of `Split`. */
  function Join(pieces: seq<string>, sep: char): string
    decreases |pieces|
  {
    if pieces == [] then []
    else if |pieces| == 1 then pieces[0]
    else pieces[0] + [sep] + Join(pieces[1..], sep)
  }

  /** Joining the pieces of `s` with the separator they were split at gives `s` back. */
  lemma {:induction false} JoinSplit(s: string, sep: char)
    ensures Join(Split(s, sep), sep) == s
    decreases |s|
  {
    if s != [] {
      var rest := Split(s[1..], sep);
      JoinSplit(s[1..], sep);
      assert s == [s[0]] + s[1..];
      if s[0] != sep && |rest| > 1 {
        assert Join(rest, sep) == rest[0] + [sep] + Join(rest[1..], sep);
        assert Split(s, sep)[1..] == rest[1..];
      }
    }
  }

  /** Splitting a string with no separator in it gives the string itself. */
  lemma {:induction false} SplitWithoutSeparator(s: string, sep: char)
    requires sep !in s
    ensures Split(s, sep) == [s]
    decreases |s|
  {
    if s != [] {
      SplitWithoutSeparator(s[1..], sep);
      assert s == [s[0]] + s[1..];
    }
  }

  /** A separator splits the string into the pieces before it followed by the pieces after it. */
  lemma {:induction false} SplitAtSeparator(x: string, y: string, sep: char)
    ensures Split(x + [sep] + y, sep) == Split(x, sep) + Split(y, sep)
    decreases |x|
  {
    if x == [] {
      assert x + [sep] + y == [sep] + y;
      assert ([sep] + y)[1..] == y;
    } else {
      var s := x + [sep] + y;
      assert s[0] == x[0];
      assert s[1..] == x[1..] + [sep] + y;
      SplitAtSeparator(x[1..], y, sep);
    }
  }
}
