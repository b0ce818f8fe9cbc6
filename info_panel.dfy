/**
 * The logic of components/InfoPanel.js: the fixed registry of region
 * descriptions, the lookup of the selected region, and what the panel shows.
 */
module InfoPanel {
  import opened Wrappers
  import ModelViewer

  /** One registry entry: display name, description, and functions in display order. */
  datatype PartInfo = PartInfo(name: string, description: string, functions: seq<string>)

  /** `bodyPartsInfo`: region key to entry. Never changed. */
  const BodyPartsInfo: map<string, PartInfo> := map[
    "head" := PartInfo(
      "Head",
      "The head contains the brain and major sensory organs.",
      ["Houses the brain", "Contains sensory organs", "Enables facial expressions"]),
    "neck" := PartInfo(
      "Neck",
      "The neck connects the head to the torso.",
      ["Supports the head", "Contains the spinal cord", "Houses the trachea and esophagus"]),
    "shoulders" := PartInfo(
      "Shoulders",
      "The shoulders connect the arms to the torso.",
      ["Enables arm movement", "Supports weight", "Attaches to major muscles"]),
    "chest" := PartInfo(
      "Chest",
      "The chest protects vital organs including the heart and lungs.",
      ["Protects heart and lungs", "Enables breathing", "Houses major blood vessels"]),
    "abdomen" := PartInfo(
      "Abdomen",
      "The abdomen contains digestive organs protected by muscles.",
      ["Houses digestive organs", "Provides core stability", "Protects internal organs"]),
    "legs" := PartInfo(
      "Legs",
      "The legs provide mobility and support the body's weight.",
      ["Body support", "Movement", "Power generation"]),
    "feet" := PartInfo(
      "Feet",
      "The feet provide stability, balance, and mobility.",
      ["Support body weight", "Absorb impact", "Enable walking"])
  ]

  /** JavaScript truthiness of the `selectedPart` prop: null and "" are falsy. */
  predicate Truthy(selectedPart: Option<string>) {
    selectedPart.Some? && selectedPart.value != ""
  }

  /** The registry entry for a truthy selected key; none when the key is falsy or missing. */
  function PartInfoOf(selectedPart: Option<string>): Option<PartInfo> {
    if Truthy(selectedPart) && selectedPart.value in BodyPartsInfo
    then Some(BodyPartsInfo[selectedPart.value])
    else None
  }

  /** One item of the functions list: its position, used as its key, and its text. */
  datatype ListItem = ListItem(key: nat, text: string)

  /** The functions list: one item per function, in stored order, keyed by position. */
  function ListItems(functions: seq<string>): (items: seq<ListItem>)
    ensures |items| == |functions|
    ensures forall i :: 0 <= i < |functions| ==> items[i] == ListItem(i, functions[i])
  {
    if functions == [] then []
    else ListItems(functions[..|functions| - 1]) + [ListItem(|functions| - 1, functions[|functions| - 1])]
  }

  /** The two views of the panel: the welcome card, or the card of one region. */
  datatype Panel = Welcome | Details(heading: string, description: string, items: seq<ListItem>)

  /** What the panel renders for a given `selectedPart`. */
  function Render(selectedPart: Option<string>): (view: Panel)
    ensures view.Welcome? <==> !Truthy(selectedPart) || selectedPart.value !in BodyPartsInfo
    ensures view.Details? ==>
      var info := BodyPartsInfo[selectedPart.value];
      && view.heading == info.name
      && view.description == info.description
      && |view.items| == |info.functions|
      && forall i :: 0 <= i < |info.functions| ==> view.items[i] == ListItem(i, info.functions[i])
  {
    match PartInfoOf(selectedPart)
    case None => Welcome
    case Some(info) => Details(info.name, info.description, ListItems(info.functions))
  }

  /** The registry's keys are exactly the seven region labels. */
  lemma RegistryKeys()
    ensures BodyPartsInfo.Keys == {"head", "neck", "shoulders", "chest", "abdomen", "legs", "feet"}
    ensures |BodyPartsInfo| == 7
  {
  }

  /** Upper-case an ASCII letter; anything else is left alone. */
  function UpperCase(c: char): char {
    if 'a' <= c <= 'z' then (c as int - 'a' as int + 'A' as int) as char else c
  }

  /** The string with its first letter upper-cased. */
  function Capitalised(s: string): string {
    if s == [] then s else [UpperCase(s[0])] + s[1..]
  }

  /** Each entry is named after its key, capitalised, and lists at least one function. */
  lemma EntriesWellFormed()
    ensures forall key :: key in BodyPartsInfo ==>
      BodyPartsInfo[key].name == Capitalised(key)
      && |BodyPartsInfo[key].description| > 0
      && |BodyPartsInfo[key].functions| > 0
  {
  }

  /**
   * Closure: every label the classifier emits is a registry key, and every
   * registry key is emitted for some pick point.
   */
  lemma ClassifierLabelsAreRegistryKeys()
    ensures forall position :: ModelViewer.Key(ModelViewer.GetBodyPart(position)) in BodyPartsInfo
    ensures forall key :: key in BodyPartsInfo ==>
      exists position :: ModelViewer.Key(ModelViewer.GetBodyPart(position)) == key
  {
    forall key | key in BodyPartsInfo
      ensures exists position :: ModelViewer.Key(ModelViewer.GetBodyPart(position)) == key
    {
      RegistryKeys();
      var p :=
        if key == "head" then ModelViewer.Head
        else if key == "neck" then ModelViewer.Neck
        else if key == "shoulders" then ModelViewer.Shoulders
        else if key == "chest" then ModelViewer.Chest
        else if key == "abdomen" then ModelViewer.Abdomen
        else if key == "legs" then ModelViewer.Legs
        else ModelViewer.Feet;
      ModelViewer.EveryPartReachable(p);
      var y: real :| ModelViewer.GetBodyPart(ModelViewer.Vec3(0.0, y, 0.0)) == p;
      assert ModelViewer.Key(ModelViewer.GetBodyPart(ModelViewer.Vec3(0.0, y, 0.0))) == key;
    }
  }

  /** A classifier result never falls through to the welcome card. */
  lemma ClassifiedPartShowsDetails(position: ModelViewer.Vec3)
    ensures var key := ModelViewer.Key(ModelViewer.GetBodyPart(position));
      Render(Some(key)).Details? && Render(Some(key)).heading == Capitalised(key)
  {
    var key := ModelViewer.Key(ModelViewer.GetBodyPart(position));
    ClassifierLabelsAreRegistryKeys();
    EntriesWellFormed();
    assert key in BodyPartsInfo;
    assert BodyPartsInfo[key].name == Capitalised(key);
  }
}
