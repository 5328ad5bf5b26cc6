/** Short interactions with the component, each replayed on a fresh
    instance over the four-entry catalogue; their postconditions record what
    the handlers' contracts imply for them. */
module ChipScenarios {
  import opened ChipText
  import opened ChipItems
  import opened ChipComponent

  /** "jo" does not occur in "nick giannopoulos" (there is no 'j'). */
  lemma JoSkipsNick()
    ensures !Keeps([], "Jo", Nick)
  {
    assert Lower("Jo")[0] == 'j';
    LowerLacks(Nick.name, 'j');
    MissingCharNoMatch(Lower(Nick.name), Lower("Jo"), 'j');
  }

  /** "jo" starts "john doe". */
  lemma JoKeepsJohn()
    ensures Keeps([], "Jo", John)
  {
    assert Lower("Jo") == "jo";
    assert Lower("John Doe") == "john doe";
    assert OccursAt("john doe", "jo", 0);
  }

  /** "jo" does not occur in "jane smith" (there is no 'o'). */
  lemma JoSkipsJane()
    ensures !Keeps([], "Jo", Jane)
  {
    assert Lower("Jo") == "jo";
    assert Lower("Jane Smith") == "jane smith";
    MissingCharNoMatch("jane smith", "jo", 'o');
  }

  /** "jo" occurs in "alice johnson" at position 6. */
  lemma JoKeepsAlice()
    ensures Keeps([], "Jo", Alice)
  {
    assert Lower("Jo") == "jo";
    assert Lower("Alice Johnson") == "alice johnson";
    assert OccursAt("alice johnson", "jo", 6);
  }

  /** Filtering four entries of which the filter keeps only the second and
      the fourth yields those two, in order. */
  lemma FilterSecondAndFourth(a: Item, b: Item, c: Item, d: Item, chips: seq<Chip>, v: string)
    requires !Keeps(chips, v, a) && Keeps(chips, v, b)
    requires !Keeps(chips, v, c) && Keeps(chips, v, d)
    ensures Filter([a, b, c, d], chips, v) == [b, d]
  {
    assert [a, b, c, d][1..] == [b, c, d];
    assert [b, c, d][1..] == [c, d];
    assert [c, d][1..] == [d];
    assert Filter([d], chips, v) == [d];
    assert Filter([c, d], chips, v) == [d];
    assert Filter([b, c, d], chips, v) == [b, d];
  }

  /** With no chips, typing "Jo" lists John Doe and Alice Johnson, in
      catalogue order. */
  lemma JoCandidates()
    ensures Filter(Catalogue, [], "Jo") == [John, Alice]
  {
    JoSkipsNick();
    JoKeepsJohn();
    JoSkipsJane();
    JoKeepsAlice();
    FilterSecondAndFourth(Nick, John, Jane, Alice, [], "Jo");
  }

  /** Typing "Jo" into a fresh component stores it and lists John Doe and
      Alice Johnson, in catalogue order. */
  method TypeJo() returns (candidates: seq<Item>, buffer: string)
    ensures candidates == [John, Alice]
    ensures buffer == "Jo"
  {
    var c := new ChipInput(Catalogue);
    c.HandleInputChange("Jo");
    JoCandidates();
    candidates, buffer := c.filteredItems, c.inputValue;
  }

  /** A fresh component after typing "Jo" and clicking John Doe. */
  method SelectJohn() returns (c: ChipInput)
    ensures fresh(c) && c.Valid() && c.items == Catalogue
    ensures c.chips == [John] && c.filteredItems == [Alice]
    ensures c.inputValue == [] && c.highlightedChip == None
  {
    c := new ChipInput(Catalogue);
    c.HandleInputChange("Jo");
    JoCandidates();
    c.HandleItemClick(John);
    assert WithoutId([John, Alice], "2") == [Alice];
  }

  /** Looking up John Doe's id in the catalogue finds his entry. */
  lemma FindJohn()
    ensures FindById(Catalogue, "2") == Some(John)
  {
    assert Catalogue[1..] == [John, Jane, Alice];
  }

  /** With John Doe as the only chip and an empty buffer, a first
      Backspace only highlights the chip. */
  method HighlightJohn() returns (c: ChipInput)
    ensures fresh(c) && c.Valid() && c.items == Catalogue
    ensures c.chips == [John] && c.highlightedChip == Some(0)
    ensures c.filteredItems == [Alice] && c.inputValue == []
  {
    c := SelectJohn();
    c.HandleKeyDown("Backspace", "1700000000000");
  }

  /** With one chip and an empty buffer, the first Backspace only highlights
      the chip; the second deletes it, clears the highlight and returns John
      Doe to the end of the candidates. */
  method BackspaceTwice() returns (chips1: seq<Chip>, highlight1: Option<nat>,
                                   chips2: seq<Chip>, highlight2: Option<nat>,
                                   candidates2: seq<Item>)
    ensures chips1 == [John] && highlight1 == Some(0)
    ensures chips2 == [] && highlight2 == None && candidates2 == [Alice, John]
  {
    var c := HighlightJohn();
    chips1, highlight1 := c.chips, c.highlightedChip;
    FindJohn();
    c.HandleKeyDown("Backspace", "1700000000001");
    chips2, highlight2, candidates2 := c.chips, c.highlightedChip, c.filteredItems;
  }

  /** Deleting John Doe's chip from the component of `SelectJohn` empties
      the chips and returns him to the end of the candidates. */
  method DeleteJohn() returns (c: ChipInput)
    ensures fresh(c) && c.Valid() && c.items == Catalogue
    ensures c.chips == [] && c.filteredItems == [Alice, John]
  {
    c := SelectJohn();
    FindJohn();
    c.HandleDeleteChip("2");
  }

  /** Deleting the same catalogue chip twice is not idempotent: the chips
      stay empty, but the entry is appended to the candidates a second time. */
  method DeleteTwice() returns (chips1: seq<Chip>, candidates1: seq<Item>,
                                chips2: seq<Chip>, candidates2: seq<Item>)
    ensures chips1 == [] && candidates1 == [Alice, John]
    ensures chips2 == [] && candidates2 == [Alice, John, John]
    ensures candidates1 != candidates2
  {
    var c := DeleteJohn();
    chips1, candidates1 := c.chips, c.filteredItems;
    FindJohn();
    c.HandleDeleteChip("2");
    chips2, candidates2 := c.chips, c.filteredItems;
  }

  /** Appending one disallowed character to clean text and sanitising gives
      the clean text back. */
  lemma SanitizeTrailing(s: string, c: char)
    requires AllAllowed(s) && !IsAllowed(c)
    ensures !AllAllowed(s + [c]) && Sanitize(s + [c]) == s
  {
    assert (s + [c])[|s|] == c;
    SanitizeAppend(s, [c]);
  }

  /** A value with a disallowed character is stored sanitised but not cut:
      the buffer ends up longer than 20 characters. */
  method OverlongWithPunctuation() returns (buffer: string)
    ensures buffer == "Twenty one characters"
    ensures |buffer| > MaxInput
  {
    var c := new ChipInput(Catalogue);
    assert AllAllowed("Twenty one characters");
    SanitizeTrailing("Twenty one characters", '!');
    c.HandleInputChange("Twenty one characters" + "!");
    buffer := c.inputValue;
  }

  /** Typing a clean word of at most 20 characters into a fresh component
      and pressing Enter adds exactly one free-text chip, named by the
      trimmed word, carrying the clock reading as id and no email or photo,
      and empties the buffer. */
  method EnterWord(word: string, now: string) returns (chips: seq<Chip>, buffer: string)
    requires AllAllowed(word) && |word| <= MaxInput
    requires exists k :: 0 <= k < |word| && word[k] != ' '
    ensures chips == [Item(now, Trim(word), None, None)] && buffer == []
    ensures Trim(chips[0].name) == chips[0].name
  {
    assert Trim(word) != [] by {
      var k :| 0 <= k < |word| && word[k] != ' ';
      assert IsAllowed(word[k]);
      assert !IsWhitespace(word[k]);
      TrimBlank(word);
    }
    var c := new ChipInput(Catalogue);
    c.HandleInputChange(word);
    assert c.inputValue == word by {
      assert word[..|word|] == word;
    }
    c.HandleKeyDown("Enter", now);
    chips, buffer := c.chips, c.inputValue;
    TrimIdempotent(word);
  }

  /** Typing only spaces and pressing Enter adds no chip and keeps the
      buffer. */
  method EnterBlank(spaces: string, now: string) returns (chips: seq<Chip>, buffer: string)
    requires |spaces| <= MaxInput && forall k :: 0 <= k < |spaces| ==> spaces[k] == ' '
    ensures chips == [] && buffer == spaces
  {
    var c := new ChipInput(Catalogue);
    assert AllAllowed(spaces);
    c.HandleInputChange(spaces);
    assert spaces[..|spaces|] == spaces;
    TrimBlank(spaces);
    c.HandleKeyDown("Enter", now);
    chips, buffer := c.chips, c.inputValue;
  }

  /** Removing the only chip with its remove glyph leaves the highlight on
      position 0, where no chip is any more. */
  method RemoveGlyphLeavesHighlight() returns (chips: seq<Chip>, highlight: Option<nat>)
    ensures chips == [] && highlight == Some(0)
  {
    var c := SelectJohn();
    c.ClickRemove(0);
    chips, highlight := c.chips, c.highlightedChip;
  }
}
