/**
  Worked examples of the identifier rules and of the add operations, on
  concrete inputs.
 */
module Scenarios {
  import opened Wrappers
  import opened GoStrings
  import opened Utils
  import opened Types
  import opened Catalog

  /** The normaliser's five steps, taken one at a time. */
  lemma NormalizeSteps(s: string, lowered: string, hyphened: string, stripped: string, collapsed: string, r: string)
    requires ToLower(s) == lowered
    requires ReplaceSpaces(lowered) == hyphened
    requires StripNonSlug(hyphened) == stripped
    requires CollapseHyphens(stripped) == collapsed
    requires Trim(collapsed, Hyphens) == r
    ensures NormalizeID(s) == r
  {
  }

  lemma LowerTwoWords() ensures ToLower("Tom Hanks") == "tom hanks" {}

  lemma HyphenTwoWords() ensures ReplaceSpaces("tom hanks") == "tom-hanks" {}

  lemma StripTwoWords() ensures StripNonSlug("tom-hanks") == "tom-hanks" { StripKeepsSlug("tom-hanks"); }

  lemma CollapseTwoWords() ensures CollapseHyphens("tom-hanks") == "tom-hanks" { CollapseKeepsSingle("tom-hanks"); }

  lemma TrimTwoWords() ensures Trim("tom-hanks", Hyphens) == "tom-hanks" { TrimKeepsUntrimmed("tom-hanks"); }

  /** A name with one space becomes a two-word slug. */
  lemma NormalizeTwoWords()
    ensures NormalizeID("Tom Hanks") == "tom-hanks"
  {
    LowerTwoWords();
    HyphenTwoWords();
    StripTwoWords();
    CollapseTwoWords();
    TrimTwoWords();
    NormalizeSteps("Tom Hanks", "tom hanks", "tom-hanks", "tom-hanks", "tom-hanks", "tom-hanks");
  }

  lemma LowerSpaces() ensures ToLower("-A  b!") == "-a  b!" {}

  lemma HyphenSpaces() ensures ReplaceSpaces("-a  b!") == "-a--b!" {}

  lemma StripSpaces() ensures StripNonSlug("-a--b!") == "-a--b" {}

  lemma CollapseSpaces() ensures CollapseHyphens("-a--b") == "-a-b" {}

  lemma TrimSpaces() ensures Trim("-a-b", Hyphens) == "a-b" {}

  /** A run of spaces becomes one hyphen, punctuation disappears, and an edge hyphen is trimmed. */
  lemma NormalizeSpacesAndPunctuation()
    ensures NormalizeID("-A  b!") == "a-b"
  {
    LowerSpaces();
    HyphenSpaces();
    StripSpaces();
    CollapseSpaces();
    TrimSpaces();
    NormalizeSteps("-A  b!", "-a  b!", "-a--b!", "-a--b", "-a-b", "a-b");
  }

  lemma StripTab() ensures StripNonSlug("a\tb") == "ab" {}

  lemma KeepAb()
    ensures CollapseHyphens("ab") == "ab"
    ensures Trim("ab", Hyphens) == "ab"
  {
    TrimKeeps("ab", Hyphens);
  }

  /** Only the ASCII space becomes a hyphen: a tab is deleted outright. */
  lemma NormalizeDropsTab()
    ensures NormalizeID("a\tb") == "ab"
  {
    assert ToLower("a\tb") == "a\tb";
    assert ReplaceSpaces("a\tb") == "a\tb";
    StripTab();
    KeepAb();
    NormalizeSteps("a\tb", "a\tb", "a\tb", "ab", "ab", "ab");
  }

  lemma StripBangs() ensures StripNonSlug("!!!") == [] {}

  /** An input with no letter or digit normalises to the empty ID, which `validateID` refuses. */
  lemma NormalizeNothingLeft()
    ensures NormalizeID("!!!") == []
    ensures ValidateID(NormalizeID("!!!")) == Fail(EmptyID)
  {
    assert ToLower("!!!") == "!!!";
    assert ReplaceSpaces("!!!") == "!!!";
    StripBangs();
    NormalizeSteps("!!!", "!!!", "!!!", [], [], []);
  }

  lemma CollapseHyphenRun() ensures CollapseHyphens("---") == "-" {}

  /** Hyphens alone collapse to one hyphen, which the trim then removes. */
  lemma NormalizeOnlyHyphens()
    ensures NormalizeID("---") == []
  {
    assert ToLower("---") == "---";
    assert ReplaceSpaces("---") == "---";
    StripKeepsSlug("---");
    CollapseHyphenRun();
    assert Trim("-", Hyphens) == [];
    NormalizeSteps("---", "---", "---", "---", "-", []);
  }

  /** `validateID` refuses an ID with an upper-case letter and a space as badly formed. */
  lemma ValidateRejectsName()
    ensures ValidateID("Tom Hanks") == Fail(InvalidIDFormat)
  {
    assert !IsSlugChar("Tom Hanks"[0]);
  }

  /** `validateID` accepts a slug with letters, digits and hyphens. */
  lemma ValidateAcceptsSlug()
    ensures ValidateID("a-1") == Pass
  {
    assert IsSlug("a-1");
  }

  /** Splitting the cast input keeps the empty piece between two commas. */
  lemma SplitKeepsEmptyPiece()
    ensures Split("a,,b", ',') == ["a", "", "b"]
  {
    assert "a,,b" == "a" + [','] + ([] + [','] + "b");
    SplitAtSeparator("a", [] + [','] + "b", ',');
    SplitAtSeparator([], "b", ',');
    SplitWithoutSeparator("a", ',');
    SplitWithoutSeparator("b", ',');
  }

  const Empty := CinemaData([], [], [], [])

  /** A blank name is refused before anything else is looked at. */
  lemma BlankName()
    ensures AddActor(Empty, "tom-hanks", " \t") == Err(EmptyName)
  {
    assert AllIn(" \t", WhiteSpace);
  }

  /** A project with no cast and no references is written with its three fixed fields only. */
  lemma BareProjectJson()
    ensures EncodeProject(Project("p1", "Big", 1988, [], [], [])).members
      == [Member("id", JString("p1")), Member("title", JString("Big")), Member("year", JNumber(1988))]
  {
  }
}
