/**
 * The Kivy front end (kivy-creature-types.py) with its widgets stripped away:
 * the catalog with its fallback entry, the history kept oldest first with no
 * cap, the history file it is saved to after every change and read back from
 * at start-up, the result text box and the list panel's labels and height.
 */
module KivyApp {
  import opened Text
  import opened LineFile

  /** The catalog used when creature_types.txt is missing or has no entry. */
  const DefaultCreature: string := "Default Creature"

  /** The fallback entry survives a save and reload like any parsed one. */
  lemma DefaultCreatureStorable()
    ensures Storable(DefaultCreature)
  {
    assert DefaultCreature[0] == 'D' && DefaultCreature[|DefaultCreature| - 1] == 'e';
    forall i | 0 <= i < |DefaultCreature| ensures DefaultCreature[i] != '\n' {
    }
  }

  /** The result text shown when generating with an empty catalog. */
  const NoCreatureTypesLoaded: string := "No creature types loaded!"

  /** Height the list panel grants each history entry. */
  const RowHeight: nat := 70

  /** `load_creature_types`: the stripped non-blank lines of the catalog file
      in file order, or nothing when the file is missing. */
  function LoadCreatureTypes(file: File): (types: seq<string>)
    ensures file.Missing? ==> types == []
    ensures file.Present? ==> types == DropEmpty(StripAll(Lines(file.text)))
    ensures forall e :: e in types ==> Storable(e)
  {
    match file
    case Missing => []
    case Present(text) =>
      ParsedEntriesStorable(text);
      StrippedNonBlankIsFiltered(Lines(text));
      StrippedNonBlank(Lines(text))
  }

  /** What `load_generated_creatures` leaves in the history: the stripped
      non-blank lines of the history file, or `current` untouched when the
      file is missing. */
  function ReadHistory(file: File, current: seq<string>): seq<string>
  {
    match file
    case Missing => current
    case Present(text) => StrippedNonBlank(Lines(text))
  }

  /** The loop of `save_generated_creatures`: each entry written followed by
      '\n', in order. */
  method WriteEntries(entries: seq<string>) returns (text: string)
    ensures text == Serialized(entries)
    ensures (forall e :: e in entries ==> Storable(e)) ==> StrippedNonBlank(Lines(text)) == entries
  {
    text := "";
    for i := 0 to |entries|
      invariant text == Serialized(entries[..i])
    {
      SerializedSnoc(entries[..i], entries[i]);
      assert entries[..i + 1] == entries[..i] + [entries[i]];
      text := text + entries[i] + "\n";
    }
    assert entries[..|entries|] == entries;
    if forall e :: e in entries ==> Storable(e) {
      SaveLoadRoundTrip(entries);
    }
  }

  /** The application object, reduced to the state its callbacks update. */
  class CreatureGeneratorApp {
    var creatureTypes: seq<string>
    var generatedCreatures: seq<string>
    /** The text of the read-only result box. */
    var resultText: string
    /** generated_creatures.txt on disk. */
    var historyFile: File
    /** The texts of the labels in the list panel, in order. */
    var labels: seq<string>
    /** The list panel's height. */
    var listHeight: int

    /** Every catalog and history entry survives a save and reload. */
    ghost predicate Valid()
      reads this
    {
      && (forall e :: e in creatureTypes ==> Storable(e))
      && (forall e :: e in generatedCreatures ==> Storable(e))
    }

    /** `build` given the catalog file and the history file on disk: the
        catalog falls back to the default entry, the history is whatever the
        history file holds (empty when it is missing), the result box is
        empty and the list panel shows the history. */
    constructor Build(catalogFile: File, savedHistory: File)
      ensures Valid()
      ensures creatureTypes != []
      ensures LoadCreatureTypes(catalogFile) != [] ==> creatureTypes == LoadCreatureTypes(catalogFile)
      ensures LoadCreatureTypes(catalogFile) == [] ==> creatureTypes == [DefaultCreature]
      ensures historyFile == savedHistory
      ensures generatedCreatures == ReadHistory(savedHistory, [])
      ensures savedHistory.Missing? ==> generatedCreatures == []
      ensures resultText == ""
      ensures labels == generatedCreatures && listHeight == RowHeight * |generatedCreatures|
    {
      var loaded := LoadCreatureTypes(catalogFile);
      if loaded == [] {
        DefaultCreatureStorable();
        loaded := [DefaultCreature];
      }
      creatureTypes := loaded;
      generatedCreatures := [];
      historyFile := savedHistory;
      resultText := "";
      labels := [];
      listHeight := 0;
      new;
      LoadGeneratedCreatures();
      UpdateGeneratedList();
    }

    /** `load_generated_creatures`: replace the history with the history
        file's entries, or keep it when the file is missing. */
    method LoadGeneratedCreatures()
      requires Valid()
      modifies this`generatedCreatures
      ensures Valid()
      ensures generatedCreatures == ReadHistory(historyFile, old(generatedCreatures))
    {
      match historyFile
      case Missing =>
      case Present(text) =>
        ParsedEntriesStorable(text);
        generatedCreatures := StrippedNonBlank(Lines(text));
    }

    /** `generate_creature`, with `pick` standing for the index `choice`
        draws. With an empty catalog it only reports so; otherwise the chosen
        type is shown, appended at the end of the history, saved, and the
        list panel redrawn. The saved file reads back as the new history. */
    method GenerateCreature(pick: nat)
      requires Valid()
      requires creatureTypes != [] ==> pick < |creatureTypes|
      modifies this
      ensures Valid()
      ensures creatureTypes == old(creatureTypes)
      ensures old(creatureTypes) == [] ==>
        && resultText == NoCreatureTypesLoaded
        && generatedCreatures == old(generatedCreatures)
        && historyFile == old(historyFile)
        && labels == old(labels) && listHeight == old(listHeight)
      ensures old(creatureTypes) != [] ==>
        && resultText == creatureTypes[pick]
        && generatedCreatures == old(generatedCreatures) + [creatureTypes[pick]]
        && historyFile == Present(Serialized(generatedCreatures))
        && ReadHistory(historyFile, []) == generatedCreatures
        && labels == generatedCreatures && listHeight == RowHeight * |generatedCreatures|
    {
      if creatureTypes == [] {
        resultText := NoCreatureTypesLoaded;
        return;
      }
      var creature := creatureTypes[pick];
      resultText := creature;
      generatedCreatures := generatedCreatures + [creature];
      SaveGeneratedCreatures();
      UpdateGeneratedList();
    }

    /** `update_generated_list`: one label per history entry, in order, and a
        panel height of 70 per entry. */
    method UpdateGeneratedList()
      modifies this`labels, this`listHeight
      ensures labels == generatedCreatures
      ensures listHeight == RowHeight * |generatedCreatures|
    {
      labels := [];
      for i := 0 to |generatedCreatures|
        invariant labels == generatedCreatures[..i]
      {
        labels := labels + [generatedCreatures[i]];
      }
      listHeight := |generatedCreatures| * RowHeight;
    }

    /** `save_generated_creatures`: overwrite the history file with one line
        per entry; reading it back gives the history. */
    method SaveGeneratedCreatures()
      requires Valid()
      modifies this`historyFile
      ensures historyFile == Present(Serialized(generatedCreatures))
      ensures ReadHistory(historyFile, []) == generatedCreatures
    {
      var text := WriteEntries(generatedCreatures);
      historyFile := Present(text);
    }

    /** `new_game`: empty history, empty result box, empty list panel and an
        empty history file. Every field but the catalog ends up fixed, so a
        second call changes nothing. */
    method NewGame()
      requires Valid()
      modifies this
      ensures Valid()
      ensures creatureTypes == old(creatureTypes)
      ensures generatedCreatures == [] && resultText == ""
      ensures labels == [] && listHeight == 0
      ensures historyFile == Present("")
    {
      generatedCreatures := [];
      resultText := "";
      UpdateGeneratedList();
      SaveGeneratedCreatures();
    }
  }
}
