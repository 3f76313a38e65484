/**
  The identifier rules of utils.go: the slug normaliser `normalizeID` and the
  validators `validateID` and `validateName`.
 */
module Utils {
  import opened Wrappers
  import opened GoStrings

  /** The failures the data layer reports to the operator. */
  datatype Error = EmptyID | InvalidIDFormat | EmptyName | DuplicateID

  predicate IsLowerLetter(c: char) { 'a' <= c <= 'z' }

  predicate IsDigit(c: char) { '0' <= c <= '9' }

  predicate IsHyphen(c: char) { c == '-' }

  /** The cutset of `strings.Trim(s, "-")`: `IsHyphen` as a character class for `Trim`. */
  const Hyphens := Only('-')

  /** The character class `[a-z0-9-]` of a slug. */
  predicate IsSlugChar(c: char) { IsLowerLetter(c) || IsDigit(c) || IsHyphen(c) }

  /** Every character of `s` is in `[a-z0-9-]`. */
  predicate IsSlug(s: string)
  {
    forall i :: 0 <= i < |s| ==> IsSlugChar(s[i])
  }

  /** No two consecutive hyphens. */
  predicate NoDoubleHyphen(s: string)
  {
    forall i :: 0 <= i < |s| - 1 ==> !(IsHyphen(s[i]) && IsHyphen(s[i + 1]))
  }

  /** Neither the first nor the last character is a hyphen. */
  predicate NoEdgeHyphen(s: string)
  {
    s != [] ==> !IsHyphen(s[0]) && !IsHyphen(s[|s| - 1])
  }

  /** The shape of every string the normaliser produces. */
  predicate Canonical(s: string)
  {
    IsSlug(s) && NoDoubleHyphen(s) && NoEdgeHyphen(s)
  }

  /**
    The anchored pattern `^[a-z0-9-]+$`, matched one character at a time:
    at least one character, and every character in the class.
   */
  function MatchesIdPattern(s: string): (r: bool)
    ensures r <==> s != [] && IsSlug(s)
    decreases |s|
  {
    s != [] && IsSlugChar(s[0]) && (|s| == 1 || MatchesIdPattern(s[1..]))
  }

  /**
    `validateID`: the empty string is rejected first, as `EmptyID`; any other
    string passes exactly when all of its characters are in `[a-z0-9-]`, and
    is rejected as `InvalidIDFormat` otherwise.
   */
  function ValidateID(id: string): (r: Outcome<Error>)
    ensures r == Fail(EmptyID) <==> id == []
    ensures r == Pass <==> id != [] && IsSlug(id)
    ensures r == Fail(InvalidIDFormat) <==> exists i :: 0 <= i < |id| && !IsSlugChar(id[i])
  {
    if id == [] then Fail(EmptyID)
    else if !MatchesIdPattern(id) then Fail(InvalidIDFormat)
    else Pass
  }

  /** `validateName`: a name fails with `EmptyName` exactly when it is nothing but white space. */
  function ValidateName(name: string): (r: Outcome<Error>)
    ensures r == Pass || r == Fail(EmptyName)
    ensures r == Fail(EmptyName) <==> AllIn(name, WhiteSpace)
  {
    if TrimSpace(name) == [] then Fail(EmptyName) else Pass
  }

  /**
    Go's `unicode.ToLower` as far as the normaliser can observe it: `A`-`Z`,
    and the two non-ASCII runes whose lower case is an ASCII letter (capital I
    with dot above, and the Kelvin sign). Every other rune is kept; its real
    lower case is never an ASCII letter, digit, space or hyphen, so the
    filtering step deletes it either way.
   */
  function LowerChar(c: char): (r: char)
    ensures 'A' <= c <= 'Z' ==> r as int == c as int + 32
    ensures IsSlugChar(c) || c == ' ' ==> r == c
    ensures IsLowerLetter(r) <==> IsLowerLetter(c) || 'A' <= c <= 'Z' || c == '\U{0130}' || c == '\U{212A}'
  {
    if 'A' <= c <= 'Z' then (c as int + 32) as char
    else if c == '\U{0130}' then 'i'
    else if c == '\U{212A}' then 'k'
    else c
  }

  /**
    Step 1, `strings.ToLower`: rune by rune, upper-case ASCII letters become
    lower case and the characters of `[a-z0-9-]` and the space stay as they are.
   */
  function ToLower(s: string): (r: string)
    ensures |r| == |s|
    ensures forall i :: 0 <= i < |s| && 'A' <= s[i] <= 'Z' ==> r[i] as int == s[i] as int + 32
    ensures forall i :: 0 <= i < |s| && (IsSlugChar(s[i]) || s[i] == ' ') ==> r[i] == s[i]
  {
    seq(|s|, i requires 0 <= i < |s| => LowerChar(s[i]))
  }

  /** Step 2, `strings.ReplaceAll(s, " ", "-")`: only the ASCII space becomes a hyphen. */
  function ReplaceSpaces(s: string): (r: string)
    ensures |r| == |s|
    ensures forall i :: 0 <= i < |r| ==> r[i] != ' '
    ensures forall i :: 0 <= i < |s| && s[i] == ' ' ==> r[i] == '-'
    ensures forall i :: 0 <= i < |s| && s[i] != ' ' ==> r[i] == s[i]
  {
    seq(|s|, i requires 0 <= i < |s| => if s[i] == ' ' then '-' else s[i])
  }

  /** Step 3, replacing `[^a-z0-9-]` by nothing: the characters of the class, in order. */
  function StripNonSlug(s: string): (r: string)
    ensures IsSlug(r)
    ensures |r| <= |s|
    decreases |s|
  {
    if s == [] then []
    else (if IsSlugChar(s[0]) then [s[0]] else []) + StripNonSlug(s[1..])
  }

  /**
    Step 4, replacing `-+` by `-`: every run of hyphens becomes one hyphen.
    The result has no double hyphen, starts with the same character, and keeps
    to the slug alphabet when the input does.
   */
  function CollapseHyphens(s: string): (r: string)
    ensures NoDoubleHyphen(r)
    ensures |r| <= |s|
    ensures s != [] ==> r != [] && r[0] == s[0]
    ensures IsSlug(s) ==> IsSlug(r)
    decreases |s|
  {
    if |s| <= 1 then s
    else if IsHyphen(s[0]) && IsHyphen(s[1]) then CollapseHyphens(s[1..])
    else [s[0]] + CollapseHyphens(s[1..])
  }

  /** Steps 1 to 3: the string over `[a-z0-9-]` whose hyphen runs steps 4 and 5 tidy up. */
  function Prepared(s: string): (r: string)
    ensures IsSlug(r)
  {
    StripNonSlug(ReplaceSpaces(ToLower(s)))
  }

  /**
    `normalizeID`: lower-case, spaces to hyphens, drop everything outside
    `[a-z0-9-]`, collapse hyphen runs, then trim hyphens from both ends
    (step 5, `strings.Trim(s, "-")`). The result is always canonical.
   */
  function NormalizeID(s: string): (r: string)
    ensures Canonical(r)
  {
    var c := CollapseHyphens(Prepared(s));
    TrimKeepsShape(c);
    Trim(c, Hyphens)
  }

  /** Trimming the hyphens of a hyphen-collapsed slug gives a canonical string. */
  lemma TrimKeepsShape(c: string)
    requires IsSlug(c) && NoDoubleHyphen(c)
    ensures Canonical(Trim(c, Hyphens))
  {
    var r := Trim(c, Hyphens);
    var i := Leading(c, Hyphens);
    TrimMiddle(c, Hyphens);
    forall j | 0 <= j < |r|
      ensures IsSlugChar(r[j])
    {
      assert r[j] == c[i + j];
    }
    forall j | 0 <= j < |r| - 1
      ensures !(IsHyphen(r[j]) && IsHyphen(r[j + 1]))
    {
      assert r[j] == c[i + j] && r[j + 1] == c[i + j + 1];
    }
    if r != [] {
      assert !In(r[0], Hyphens) && !In(r[|r| - 1], Hyphens);
    }
  }

  /** The class filter keeps a slug as it is. */
  lemma {:induction false} StripKeepsSlug(t: string)
    requires IsSlug(t)
    ensures StripNonSlug(t) == t
    decreases |t|
  {
    if t != [] {
      StripKeepsSlug(t[1..]);
      assert t == [t[0]] + t[1..];
    }
  }

  /** The filter works character by character: filtering a concatenation filters each part. */
  lemma {:induction false} StripAppend(a: string, b: string)
    ensures StripNonSlug(a + b) == StripNonSlug(a) + StripNonSlug(b)
    decreases |a|
  {
    if a == [] {
      assert a + b == b;
    } else {
      assert (a + b)[0] == a[0];
      assert (a + b)[1..] == a[1..] + b;
      StripAppend(a[1..], b);
    }
  }

  /** A single character is kept exactly when it is in `[a-z0-9-]`, and deleted otherwise. */
  lemma StripChar(c: char)
    ensures StripNonSlug([c]) == if IsSlugChar(c) then [c] else []
  {
    assert [c][1..] == [];
  }

  /** Collapsing keeps a string that has no hyphen run to collapse. */
  lemma {:induction false} CollapseKeepsSingle(t: string)
    requires NoDoubleHyphen(t)
    ensures CollapseHyphens(t) == t
    decreases |t|
  {
    if |t| > 1 {
      CollapseKeepsSingle(t[1..]);
      assert t == [t[0]] + t[1..];
    }
  }

  /** Trimming hyphens keeps a string that neither starts nor ends with one. */
  lemma TrimKeepsUntrimmed(t: string)
    requires NoEdgeHyphen(t)
    ensures Trim(t, Hyphens) == t
  {
    TrimKeeps(t, Hyphens);
  }

  /** Every canonical string is its own normal form. */
  lemma CanonicalIsFixpoint(t: string)
    requires Canonical(t)
    ensures NormalizeID(t) == t
  {
    assert ToLower(t) == t;
    assert ReplaceSpaces(t) == t;
    StripKeepsSlug(t);
    CollapseKeepsSingle(t);
    TrimKeepsUntrimmed(t);
  }

  /** Normalising twice is the same as normalising once. */
  lemma NormalizeIdempotent(s: string)
    ensures NormalizeID(NormalizeID(s)) == NormalizeID(s)
  {
    CanonicalIsFixpoint(NormalizeID(s));
  }

  /**
    A normalised ID never fails the format check: it passes `validateID`
    exactly when it is non-empty, and fails with `EmptyID` otherwise.
   */
  lemma NormalizedIsValid(s: string)
    ensures NormalizeID(s) != [] ==> ValidateID(NormalizeID(s)) == Pass
    ensures NormalizeID(s) == [] ==> ValidateID(NormalizeID(s)) == Fail(EmptyID)
    ensures ValidateID(NormalizeID(s)) != Fail(InvalidIDFormat)
  {
  }

  /** The non-empty strings of `ps`, in their order. */
  function NonEmpty(ps: seq<string>): seq<string>
    decreases |ps|
  {
    if ps == [] then []
    else (if ps[0] == [] then [] else [ps[0]]) + NonEmpty(ps[1..])
  }

  /** The words of a string: its non-empty hyphen-separated pieces. */
  function HyphenWords(t: string): seq<string>
  {
    NonEmpty(Split(t, '-'))
  }

  /**
    The words of an input: the non-empty hyphen-separated pieces of the input
    once it is lower-cased, its spaces are turned into hyphens and every
    character outside `[a-z0-9-]` is deleted.
   */
  function Words(s: string): seq<string>
  {
    HyphenWords(Prepared(s))
  }

  /** `NonEmpty` keeps only strings of `ps`, and only non-empty ones. */
  lemma {:induction false} NonEmptyMembers(ps: seq<string>)
    ensures forall w :: w in NonEmpty(ps) ==> w in ps && w != []
    decreases |ps|
  {
    if ps != [] {
      NonEmptyMembers(ps[1..]);
      assert forall w :: w in ps[1..] ==> w in ps;
    }
  }

  /** Every word of an input is a non-empty run of lower-case letters and digits. */
  lemma WordsAreAlphanumeric(s: string)
    ensures forall w :: w in Words(s) ==> w != [] && forall c :: c in w ==> IsLowerLetter(c) || IsDigit(c)
  {
    var t := Prepared(s);
    NonEmptyMembers(Split(t, '-'));
    SplitPieces(t, '-');
    forall w | w in Words(s)
      ensures w != [] && forall c :: c in w ==> IsLowerLetter(c) || IsDigit(c)
    {
      assert w in Split(t, '-');
      var i :| 0 <= i < |Split(t, '-')| && Split(t, '-')[i] == w;
      assert '-' !in w && forall c :: c in w ==> c in t;
    }
  }

  lemma {:induction false} NonEmptyAppend(a: seq<string>, b: seq<string>)
    ensures NonEmpty(a + b) == NonEmpty(a) + NonEmpty(b)
    decreases |a|
  {
    if a != [] {
      var head: seq<string> := if a[0] == [] then [] else [a[0]];
      assert (a + b)[0] == a[0];
      assert (a + b)[1..] == a[1..] + b;
      assert NonEmpty(a + b) == head + NonEmpty(a[1..] + b);
      NonEmptyAppend(a[1..], b);
      assert head + (NonEmpty(a[1..]) + NonEmpty(b)) == (head + NonEmpty(a[1..])) + NonEmpty(b);
    } else {
      assert a + b == b;
    }
  }

  lemma {:induction false} NonEmptyKeepsNonEmpty(ps: seq<string>)
    requires forall i :: 0 <= i < |ps| ==> ps[i] != []
    ensures NonEmpty(ps) == ps
    decreases |ps|
  {
    if ps != [] {
      NonEmptyKeepsNonEmpty(ps[1..]);
      assert ps == [ps[0]] + ps[1..];
    }
  }

  /** A hyphen separates the words before it from the words after it. */
  lemma HyphenWordsAt(x: string, y: string)
    ensures HyphenWords(x + "-" + y) == HyphenWords(x) + HyphenWords(y)
  {
    SplitAtSeparator(x, y, '-');
    NonEmptyAppend(Split(x, '-'), Split(y, '-'));
  }

  /** Two hyphens in a row separate the same words as one. */
  lemma DoubleHyphenWords(p: string, u: string)
    ensures HyphenWords(p + "-" + ("-" + u)) == HyphenWords(p + "-" + u)
  {
    HyphenWordsAt(p, "-" + u);
    assert "-" + u == [] + "-" + u;
    HyphenWordsAt([], u);
    assert HyphenWords([]) == [];
    HyphenWordsAt(p, u);
  }

  /** Collapsing the hyphen runs of a suffix keeps the words of the whole string. */
  lemma {:induction false} CollapseKeepsWords(p: string, t: string)
    ensures HyphenWords(p + CollapseHyphens(t)) == HyphenWords(p + t)
    decreases |t|
  {
    if |t| <= 1 {
    } else if IsHyphen(t[0]) && IsHyphen(t[1]) {
      assert CollapseHyphens(t) == CollapseHyphens(t[1..]);
      CollapseKeepsWords(p, t[1..]);
      HyphenPairAt(p, t);
      DoubleHyphenWords(p, t[2..]);
    } else {
      assert CollapseHyphens(t) == [t[0]] + CollapseHyphens(t[1..]);
      assert t == [t[0]] + t[1..];
      CollapseKeepsWords(p + [t[0]], t[1..]);
      ConsAssoc(p, t[0], CollapseHyphens(t[1..]));
      ConsAssoc(p, t[0], t[1..]);
    }
  }

  /** A string that starts with two hyphens, as `DoubleHyphenWords` takes it. */
  lemma HyphenPairAt(p: string, t: string)
    requires |t| > 1 && IsHyphen(t[0]) && IsHyphen(t[1])
    ensures p + t == p + "-" + ("-" + t[2..])
    ensures p + t[1..] == p + "-" + t[2..]
  {
    assert t == "-" + ("-" + t[2..]);
    assert t[1..] == "-" + t[2..];
  }

  lemma ConsAssoc(p: string, c: char, x: string)
    ensures p + ([c] + x) == (p + [c]) + x
  {
  }

  lemma {:induction false} TrimLeftKeepsWords(t: string)
    ensures HyphenWords(TrimLeft(t, Hyphens)) == HyphenWords(t)
    decreases |t|
  {
    if t != [] && IsHyphen(t[0]) {
      assert t[1..][Leading(t[1..], Hyphens)..] == t[1 + Leading(t[1..], Hyphens)..];
      assert TrimLeft(t, Hyphens) == TrimLeft(t[1..], Hyphens);
      TrimLeftKeepsWords(t[1..]);
      assert t == [] + "-" + t[1..];
      HyphenWordsAt([], t[1..]);
      assert HyphenWords([]) == [];
    } else {
      assert TrimLeft(t, Hyphens) == t;
    }
  }

  lemma {:induction false} TrimRightKeepsWords(t: string)
    ensures HyphenWords(TrimRight(t, Hyphens)) == HyphenWords(t)
    decreases |t|
  {
    if t != [] && IsHyphen(t[|t| - 1]) {
      var u := t[..|t| - 1];
      assert u[..|u| - Trailing(u, Hyphens)] == t[..|t| - 1 - Trailing(u, Hyphens)];
      assert TrimRight(t, Hyphens) == TrimRight(t[..|t| - 1], Hyphens);
      TrimRightKeepsWords(t[..|t| - 1]);
      assert t == t[..|t| - 1] + "-" + [];
      HyphenWordsAt(t[..|t| - 1], []);
      assert HyphenWords([]) == [];
    } else {
      assert TrimRight(t, Hyphens) == t;
    }
  }

  /** In a non-empty canonical string every hyphen-separated piece is non-empty. */
  lemma {:induction false} CanonicalPiecesNonEmpty(u: string)
    requires u != [] && Canonical(u)
    ensures forall i :: 0 <= i < |Split(u, '-')| ==> Split(u, '-')[i] != []
    decreases |u|
  {
    var rest := Split(u[1..], '-');
    assert Split(u, '-') == [[u[0]] + rest[0]] + rest[1..];
    if |u| == 1 {
    } else if !IsHyphen(u[1]) {
      CanonicalPiecesNonEmpty(u[1..]);
    } else {
      assert u[1..][1..] == u[2..];
      assert rest == [[]] + Split(u[2..], '-');
      assert !IsHyphen(u[2]);
      CanonicalPiecesNonEmpty(u[2..]);
    }
  }

  /** A canonical string is its words joined by single hyphens. */
  lemma CanonicalJoinsItsWords(u: string)
    requires Canonical(u)
    ensures Join(HyphenWords(u), '-') == u
  {
    if u != [] {
      CanonicalPiecesNonEmpty(u);
      NonEmptyKeepsNonEmpty(Split(u, '-'));
      JoinSplit(u, '-');
    }
  }

  /**
    The normaliser joins the words of its input with single hyphens: the two
    hyphen steps of `normalizeID` (collapse runs, trim the ends) amount to
    dropping empty pieces between separators.
   */
  lemma NormalizeJoinsWords(s: string)
    ensures NormalizeID(s) == Join(Words(s), '-')
  {
    var t := Prepared(s);
    var c := CollapseHyphens(t);
    CollapseKeepsWords([], t);
    assert [] + c == c && [] + t == t;
    TrimLeftKeepsWords(c);
    TrimRightKeepsWords(TrimLeft(c, Hyphens));
    CanonicalJoinsItsWords(NormalizeID(s));
  }
}
