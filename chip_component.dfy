/** The chip input component's state machine: four pieces of state and one
    method per event handler. Each handler is one atomic transition; the
    catalogue is fixed when the component is created. */
module ChipComponent {
  import opened ChipText
  import opened ChipItems

  /** The longest value the normal input path keeps. */
  const MaxInput: nat := 20

  class ChipInput {
    /** The fixed catalogue of selectable entries. */
    const items: seq<Item>

    var chips: seq<Chip>
    var inputValue: string
    var filteredItems: seq<Item>
    var highlightedChip: Option<nat>

    /** What every handler keeps: the buffer holds only allowed characters,
        chip ids are unique, and every candidate is a catalogue entry that
        no chip represents. */
    ghost predicate Valid()
      reads this
    {
      && AllAllowed(inputValue)
      && UniqueIds(chips)
      && (forall x :: x in filteredItems ==> x in items && !HasId(chips, x.id))
    }

    /** No chip and no catalogue entry has `id`. */
    predicate IsFreshId(id: string)
      reads this
    {
      !HasId(chips, id) && !HasId(items, id)
    }

    /** The component as first rendered: no chips, empty buffer, empty
        candidate list, nothing highlighted. */
    constructor (catalogue: seq<Item>)
      ensures Valid()
      ensures items == catalogue
      ensures chips == [] && inputValue == [] && filteredItems == [] && highlightedChip == None
    {
      items := catalogue;
      chips := [];
      inputValue := [];
      filteredItems := [];
      highlightedChip := None;
    }

    /** The text field's change handler. A value with a disallowed character
        is stored with those characters removed and nothing else changes (no
        length cap, no refiltering, the highlight stays). Otherwise the value
        is stored cut to 20 characters, the candidates are refiltered with the
        whole value, and the highlight is cleared. */
    method HandleInputChange(value: string)
      requires Valid()
      modifies this
      ensures Valid()
      ensures chips == old(chips)
      ensures !AllAllowed(value) ==>
                inputValue == Sanitize(value)
                && filteredItems == old(filteredItems)
                && highlightedChip == old(highlightedChip)
      ensures AllAllowed(value) ==>
                inputValue == value[..if |value| > MaxInput then MaxInput else |value|]
                && filteredItems == Filter(items, chips, value)
                && highlightedChip == None
    {
      if !AllAllowed(value) {
        inputValue := Sanitize(value);
      } else if |value| > MaxInput {
        inputValue := value[..MaxInput];
        filteredItems := Filter(items, chips, value);
        highlightedChip := None;
      } else {
        inputValue := value;
        filteredItems := Filter(items, chips, value);
        highlightedChip := None;
      }
    }

    /** The chip-removal handler: every chip with `chipId` goes, the
        catalogue entry with that id (if any) is appended to the candidates
        whether or not it is already there, and buffer and highlight are
        cleared. */
    method HandleDeleteChip(chipId: string)
      requires Valid()
      modifies this
      ensures Valid()
      ensures chips == WithoutId(old(chips), chipId)
      ensures filteredItems == old(filteredItems) + FindById(items, chipId).ToSeq()
      ensures inputValue == [] && highlightedChip == None
    {
      WithoutIdKeepsUnique(chips, chipId);
      chips := WithoutId(chips, chipId);
      var removed := FindById(items, chipId);
      if removed.Some? {
        filteredItems := filteredItems + [removed.value];
      }
      inputValue := [];
      highlightedChip := None;
    }

    /** The key handler. Enter with a buffer that is not blank appends one
        free-text chip named by the trimmed buffer, with id `now` (the clock
        reading), and clears buffer and highlight. Backspace on an empty
        buffer with chips present deletes the last chip if it is already
        highlighted and otherwise highlights it. Anything else changes
        nothing. A chip created by Enter keeps the state valid when `now`
        is an id no chip and no catalogue entry has. */
    method HandleKeyDown(key: string, now: string)
      requires Valid()
      modifies this
      ensures key != "Enter" || old(IsFreshId(now)) ==> Valid()
      ensures key == "Enter" && Trim(old(inputValue)) != [] ==>
                chips == old(chips) + [Item(now, Trim(old(inputValue)), None, None)]
                && inputValue == [] && highlightedChip == None
                && filteredItems == old(filteredItems)
      ensures key == "Backspace" && old(inputValue) == [] && |old(chips)| > 0
              && old(highlightedChip) == Some(|old(chips)| - 1) ==>
                chips == old(chips)[..|old(chips)| - 1]
                && chips == WithoutId(old(chips), old(chips)[|old(chips)| - 1].id)
                && filteredItems == old(filteredItems) + FindById(items, old(chips)[|old(chips)| - 1].id).ToSeq()
                && inputValue == [] && highlightedChip == None
      ensures key == "Backspace" && old(inputValue) == [] && |old(chips)| > 0
              && old(highlightedChip) != Some(|old(chips)| - 1) ==>
                highlightedChip == Some(|old(chips)| - 1)
                && chips == old(chips) && inputValue == old(inputValue)
                && filteredItems == old(filteredItems)
      ensures !(key == "Enter" && Trim(old(inputValue)) != [])
              && !(key == "Backspace" && old(inputValue) == [] && |old(chips)| > 0) ==>
                chips == old(chips) && inputValue == old(inputValue)
                && filteredItems == old(filteredItems) && highlightedChip == old(highlightedChip)
    {
      if key == "Enter" && Trim(inputValue) != [] {
        var chip := Item(now, Trim(inputValue), None, None);
        if !HasId(chips, now) {
          AppendUnique(chips, chip);
        }
        chips := chips + [chip];
        inputValue := [];
        highlightedChip := None;
      }
      if key == "Backspace" && inputValue == [] && |chips| > 0 {
        var last := |chips| - 1;
        if highlightedChip == Some(last) {
          WithoutLastId(chips);
          HandleDeleteChip(chips[last].id);
        } else {
          highlightedChip := Some(last);
        }
      }
    }

    /** A click on a candidate: the entry is appended as a chip with all its
        fields, every candidate with its id is removed, and buffer and
        highlight are cleared. The entry clicked is one of the candidates. */
    method HandleItemClick(item: Item)
      requires Valid()
      requires item in filteredItems
      modifies this
      ensures Valid()
      ensures chips == old(chips) + [item]
      ensures filteredItems == WithoutId(old(filteredItems), item.id)
      ensures inputValue == [] && highlightedChip == None
    {
      AppendUnique(chips, item);
      chips := chips + [item];
      filteredItems := WithoutId(filteredItems, item.id);
      inputValue := [];
      highlightedChip := None;
    }

    /** A click on the body of the chip at `index` highlights it. */
    method HighlightChip(index: nat)
      requires Valid()
      modifies this
      ensures Valid()
      ensures highlightedChip == Some(index)
      ensures chips == old(chips) && inputValue == old(inputValue) && filteredItems == old(filteredItems)
    {
      highlightedChip := Some(index);
    }

    /** A click on the remove glyph of the chip at `index`. The glyph sits
        inside the chip, so the click deletes the chip and then reaches the
        chip's own highlight handler: the highlight ends up on `index`, the
        position the deleted chip had. */
    method ClickRemove(index: nat)
      requires Valid()
      requires index < |chips|
      modifies this
      ensures Valid()
      ensures chips == WithoutId(old(chips), old(chips)[index].id)
      ensures filteredItems == old(filteredItems) + FindById(items, old(chips)[index].id).ToSeq()
      ensures inputValue == [] && highlightedChip == Some(index)
    {
      HandleDeleteChip(chips[index].id);
      HighlightChip(index);
    }
  }
}
