/**
 * The catalog entry and the two fixed orders of the gallery: the rarity ranks
 * L < E < R < U and the attribute ranks fire < water < tree < thunder < light < dark
 * (script.js:13-16), the comparator the catalog is sorted with (script.js:26-30)
 * and the attribute label table (script.js:215-225).
 */
module Avatars {

  datatype Rarity = L | E | R | U

  datatype Attribute = Fire | Water | Tree | Thunder | Light | Dark

  /** One record of avatars.json: `id`, `name_ja`, `rarity`, `attribute`, `filename`. */
  datatype Avatar = Avatar(id: string, name: string, rarity: Rarity, attribute: Attribute, filename: string)

  /** No two records share an id. */
  predicate UniqueIds(s: seq<Avatar>) {
    forall i, j :: 0 <= i < j < |s| ==> s[i].id != s[j].id
  }

  /** The code a record carries in its `rarity` field and the rarity selector offers. */
  function RarityCode(r: Rarity): string {
    match r
    case L => "L"
    case E => "E"
    case R => "R"
    case U => "U"
  }

  /** The code a record carries in its `attribute` field and the attribute selector offers. */
  function AttributeCode(a: Attribute): string {
    match a
    case Fire => "fire"
    case Water => "water"
    case Tree => "tree"
    case Thunder => "thunder"
    case Light => "light"
    case Dark => "dark"
  }

  /** RARITY_ORDER: a rank per rarity, one distinct rank for each of the four codes. */
  function RarityRank(r: Rarity): (n: nat)
    ensures n < 4
  {
    match r
    case L => 0
    case E => 1
    case R => 2
    case U => 3
  }

  /** ATTRIBUTE_ORDER: a rank per attribute, one distinct rank for each of the six codes. */
  function AttributeRank(a: Attribute): (n: nat)
    ensures n < 6
  {
    match a
    case Fire => 0
    case Water => 1
    case Tree => 2
    case Thunder => 3
    case Light => 4
    case Dark => 5
  }

  /** Both rank tables give distinct codes distinct ranks, and the codes themselves are distinct. */
  lemma RanksAndCodesInjective(r1: Rarity, r2: Rarity, a1: Attribute, a2: Attribute)
    ensures RarityRank(r1) == RarityRank(r2) <==> r1 == r2
    ensures AttributeRank(a1) == AttributeRank(a2) <==> a1 == a2
    ensures RarityCode(r1) == RarityCode(r2) <==> r1 == r2
    ensures AttributeCode(a1) == AttributeCode(a2) <==> a1 == a2
  {
  }

  /**
   * The sort comparator: the rarity difference, or the attribute difference when
   * the rarities are equal. Its sign is the lexicographic order of (rarity rank,
   * attribute rank), and it is zero exactly for two avatars of the same class.
   */
  function Compare(a: Avatar, b: Avatar): (d: int)
    ensures d < 0 <==> RarityRank(a.rarity) < RarityRank(b.rarity)
                       || (a.rarity == b.rarity && AttributeRank(a.attribute) < AttributeRank(b.attribute))
    ensures d == 0 <==> a.rarity == b.rarity && a.attribute == b.attribute
  {
    var rarityDiff := RarityRank(a.rarity) - RarityRank(b.rarity);
    if rarityDiff != 0 then rarityDiff
    else AttributeRank(a.attribute) - AttributeRank(b.attribute)
  }

  /** The comparator is antisymmetric and `Compare(a, b) <= 0` is transitive: a total preorder. */
  lemma CompareTotalPreorder(a: Avatar, b: Avatar, c: Avatar)
    ensures Compare(a, b) == -Compare(b, a)
    ensures Compare(a, b) <= 0 && Compare(b, c) <= 0 ==> Compare(a, c) <= 0
  {
  }

  /** `attributeMap` of getAttributeName. */
  const ATTRIBUTE_LABELS: map<string, string> :=
    map["fire" := "炎", "water" := "水", "tree" := "樹", "thunder" := "雷", "light" := "光", "dark" := "闇"]

  /**
   * getAttributeName: the label the table gives a key; any key the table lacks (or
   * maps to an empty, falsy, label) comes back verbatim.
   */
  function AttributeName(key: string): (shown: string)
    ensures shown == key <==> key !in ATTRIBUTE_LABELS
    ensures key in ATTRIBUTE_LABELS ==> shown == ATTRIBUTE_LABELS[key]
  {
    if key in ATTRIBUTE_LABELS && ATTRIBUTE_LABELS[key] != "" then ATTRIBUTE_LABELS[key] else key
  }

  /** The table covers exactly the six attribute codes, so every attribute gets its own one-character label. */
  lemma AttributeLabelsOfCodes(a: Attribute, b: Attribute, key: string)
    ensures key in ATTRIBUTE_LABELS <==> exists c: Attribute :: AttributeCode(c) == key
    ensures |AttributeName(AttributeCode(a))| == 1
    ensures a != b ==> AttributeName(AttributeCode(a)) != AttributeName(AttributeCode(b))
  {
    if key in ATTRIBUTE_LABELS {
      var c :| c in {Fire, Water, Tree, Thunder, Light, Dark} && AttributeCode(c) == key;
    }
  }
}
