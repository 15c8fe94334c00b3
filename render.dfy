/**
 * renderAvatars (script.js:71-143) as a declarative view. One walk over the
 * filtered list keeps the current rarity and attribute; a change of rarity
 * opens a new rarity group and forgets the current attribute (script.js:87-89),
 * a change of attribute opens a new attribute group with its own grid
 * (script.js:102-118), and every avatar becomes a tile in the current grid
 * (script.js:120-142). An empty list shows only the "no results" placeholder
 * (script.js:74-78).
 */
module Render {
  import opened Wrappers
  import opened Avatars

  /** A clickable tile: image file, name, rarity code, attribute label, and the 'owned' marker. */
  datatype Tile = Tile(id: string, name: string, filename: string, rarity: Rarity, attribute: Attribute,
                       caption: string, owned: bool)

  /** An attribute group: its attribute (shown in its heading) and the tiles of its grid. */
  datatype Section = Section(attribute: Attribute, tiles: seq<Tile>)

  /** A rarity group: its heading rarity and its attribute groups. */
  datatype Group = Group(rarity: Rarity, sections: seq<Section>)

  /** What the container holds after a render. */
  datatype View = NoResults | Groups(groups: seq<Group>)

  /** The attribute text of a tile and of an attribute group's heading. */
  function Label(at: Attribute): string {
    AttributeName(AttributeCode(at))
  }

  /** The heading text of a rarity group. */
  function RarityHeading(r: Rarity): string {
    "【" + RarityCode(r) + " レアリティ】"
  }

  /** The heading text of an attribute group. */
  function AttributeHeading(at: Attribute): string {
    "-- " + Label(at) + "属性 --"
  }

  /** Two rarity groups get the same heading iff they have the same rarity; likewise for attribute groups. */
  lemma HeadingsInjective(r1: Rarity, r2: Rarity, a1: Attribute, a2: Attribute)
    ensures RarityHeading(r1) == RarityHeading(r2) <==> r1 == r2
    ensures AttributeHeading(a1) == AttributeHeading(a2) <==> a1 == a2
  {
    RanksAndCodesInjective(r1, r2, a1, a2);
    AttributeLabelsOfCodes(a1, a2, "");
    AttributeLabelsOfCodes(a2, a1, "");
    var h1, h2 := RarityHeading(r1), RarityHeading(r2);
    if h1 == h2 {
      var c1, c2 := RarityCode(r1), RarityCode(r2);
      assert |c1| == |c2|;
      assert c1 == h1[1..1 + |c1|] && c2 == h2[1..1 + |c2|];
    }
    var g1, g2 := AttributeHeading(a1), AttributeHeading(a2);
    if g1 == g2 {
      assert Label(a1) == g1[3..4] && Label(a2) == g2[3..4];
    }
  }

  /** The tile of one avatar; it carries the 'owned' marker iff the id is in the set at render time. */
  function TileOf(a: Avatar, owned: set<string>): Tile {
    Tile(a.id, a.name, a.filename, a.rarity, a.attribute, Label(a.attribute), a.id in owned)
  }

  function TilesOf(items: seq<Avatar>, owned: set<string>): seq<Tile> {
    seq(|items|, i requires 0 <= i < |items| => TileOf(items[i], owned))
  }

  /** The tiles of a list of attribute groups, in document order. */
  function SectionTiles(ss: seq<Section>): seq<Tile> {
    if ss == [] then [] else SectionTiles(ss[..|ss| - 1]) + ss[|ss| - 1].tiles
  }

  /** The tiles of a list of rarity groups, in document order. */
  function GroupTiles(gs: seq<Group>): seq<Tile> {
    if gs == [] then [] else GroupTiles(gs[..|gs| - 1]) + SectionTiles(gs[|gs| - 1].sections)
  }

  function Flatten(v: View): seq<Tile> {
    match v
    case NoResults => []
    case Groups(gs) => GroupTiles(gs)
  }

  /** A non-empty attribute group whose tiles all have its rarity `r` and its attribute. */
  predicate SectionOk(r: Rarity, s: Section) {
    && s.tiles != []
    && forall k :: 0 <= k < |s.tiles| ==> s.tiles[k].rarity == r && s.tiles[k].attribute == s.attribute
  }

  /** Attribute groups of one rarity group: each well formed, neighbours of different attributes. */
  predicate SectionsOk(r: Rarity, ss: seq<Section>) {
    && (forall i :: 0 <= i < |ss| ==> SectionOk(r, ss[i]))
    && (forall i :: 0 < i < |ss| ==> ss[i - 1].attribute != ss[i].attribute)
  }

  /** Rarity groups: each non-empty and well formed, neighbours of different rarities. */
  predicate GroupsOk(gs: seq<Group>) {
    && (forall i :: 0 <= i < |gs| ==> gs[i].sections != [] && SectionsOk(gs[i].rarity, gs[i].sections))
    && (forall i :: 0 < i < |gs| ==> gs[i - 1].rarity != gs[i].rarity)
  }

  predicate WellFormed(v: View) {
    match v
    case NoResults => true
    case Groups(gs) => gs != [] && GroupsOk(gs)
  }

  /** The walk's current rarity group and current attribute group are the last ones, of `r` and `at`. */
  predicate Current(gs: seq<Group>, r: Rarity, at: Attribute) {
    && gs != []
    && gs[|gs| - 1].rarity == r
    && gs[|gs| - 1].sections != []
    && gs[|gs| - 1].sections[|gs[|gs| - 1].sections| - 1].attribute == at
  }

  /** A tile of rarity `r` cannot join the last rarity group (there is none, or it has another rarity). */
  predicate NewRarity(gs: seq<Group>, r: Rarity) {
    gs == [] || gs[|gs| - 1].rarity != r
  }

  /** Appends a rarity group container, with its heading and no attribute group yet. */
  function OpenGroup(gs: seq<Group>, r: Rarity): seq<Group> {
    gs + [Group(r, [])]
  }

  /** Appends an attribute group, with its heading and an empty grid, to the current rarity group. */
  function OpenSection(gs: seq<Group>, at: Attribute): seq<Group>
    requires gs != []
  {
    var g := gs[|gs| - 1];
    gs[..|gs| - 1] + [g.(sections := g.sections + [Section(at, [])])]
  }

  /** Appends a tile to the grid of the current attribute group. */
  function PlaceTile(gs: seq<Group>, t: Tile): seq<Group>
    requires gs != [] && gs[|gs| - 1].sections != []
  {
    var g := gs[|gs| - 1];
    var ss := g.sections;
    var s := ss[|ss| - 1];
    gs[..|gs| - 1] + [g.(sections := ss[..|ss| - 1] + [s.(tiles := s.tiles + [t])])]
  }

  /** Dropping the last rarity group keeps the rest well formed. */
  lemma GroupsInit(gs: seq<Group>)
    requires GroupsOk(gs) && gs != []
    ensures GroupsOk(gs[..|gs| - 1])
    ensures |gs| == 1 || gs[|gs| - 2].rarity != gs[|gs| - 1].rarity
    ensures gs[|gs| - 1].sections != [] && SectionsOk(gs[|gs| - 1].rarity, gs[|gs| - 1].sections)
  {
  }

  /** Appending a well-formed rarity group of a new rarity keeps the groups well formed. */
  lemma GroupsSnoc(gs: seq<Group>, g: Group)
    requires GroupsOk(gs) && g.sections != [] && SectionsOk(g.rarity, g.sections)
    requires NewRarity(gs, g.rarity)
    ensures GroupsOk(gs + [g])
  {
  }

  lemma GroupTilesSnoc(gs: seq<Group>, g: Group)
    ensures GroupTiles(gs + [g]) == GroupTiles(gs) + SectionTiles(g.sections)
  {
    assert (gs + [g])[..|gs|] == gs;
  }

  /** Dropping the last attribute group keeps the rest well formed. */
  lemma SectionsInit(r: Rarity, ss: seq<Section>)
    requires SectionsOk(r, ss) && ss != []
    ensures SectionsOk(r, ss[..|ss| - 1])
    ensures |ss| == 1 || ss[|ss| - 2].attribute != ss[|ss| - 1].attribute
    ensures SectionOk(r, ss[|ss| - 1])
  {
  }

  /** Appending a well-formed attribute group of a new attribute keeps the sections well formed. */
  lemma SectionsSnoc(r: Rarity, ss: seq<Section>, s: Section)
    requires SectionsOk(r, ss) && SectionOk(r, s)
    requires ss == [] || ss[|ss| - 1].attribute != s.attribute
    ensures SectionsOk(r, ss + [s])
  {
  }

  lemma SectionTilesSnoc(ss: seq<Section>, s: Section)
    ensures SectionTiles(ss + [s]) == SectionTiles(ss) + s.tiles
  {
    assert (ss + [s])[..|ss|] == ss;
  }

  /** Opening an attribute group and placing a tile in it appends a one-tile attribute group. */
  lemma NewSectionShape(gs: seq<Group>, t: Tile)
    requires gs != []
    ensures PlaceTile(OpenSection(gs, t.attribute), t)
         == gs[..|gs| - 1] + [gs[|gs| - 1].(sections := gs[|gs| - 1].sections + [Section(t.attribute, [t])])]
  {
    var g := gs[|gs| - 1];
    var withSection := OpenSection(gs, t.attribute);
    assert withSection[..|withSection| - 1] == gs[..|gs| - 1];
    var ss := withSection[|withSection| - 1].sections;
    assert ss == g.sections + [Section(t.attribute, [])];
    assert ss[..|ss| - 1] == g.sections;
    assert ss[|ss| - 1].(tiles := ss[|ss| - 1].tiles + [t]) == Section(t.attribute, [t]);
  }

  /** Opening a rarity group, an attribute group in it, and placing a tile appends a one-tile rarity group. */
  lemma NewGroupShape(gs: seq<Group>, t: Tile)
    ensures PlaceTile(OpenSection(OpenGroup(gs, t.rarity), t.attribute), t)
         == gs + [Group(t.rarity, [Section(t.attribute, [t])])]
  {
    var withGroup := OpenGroup(gs, t.rarity);
    assert withGroup[..|withGroup| - 1] == gs && withGroup[|withGroup| - 1] == Group(t.rarity, []);
    NewSectionShape(withGroup, t);
    assert [] + [Section(t.attribute, [t])] == [Section(t.attribute, [t])];
  }

  /** A tile of the current rarity and attribute, appended to the last grid, keeps the groups well formed. */
  lemma GrowLastOk(init: seq<Group>, g: Group, sinit: seq<Section>, s: Section, t: Tile)
    requires GroupsOk(init + [g]) && g.sections == sinit + [s]
    requires t.rarity == g.rarity && t.attribute == s.attribute
    ensures GroupsOk(init + [g.(sections := sinit + [s.(tiles := s.tiles + [t])])])
  {
    var s' := s.(tiles := s.tiles + [t]);
    var gs := init + [g];
    GroupsInit(gs);
    assert gs[..|init|] == init && gs[|init|] == g;
    assert init != [] ==> gs[|init| - 1] == init[|init| - 1];
    SectionsInit(g.rarity, g.sections);
    assert g.sections[..|sinit|] == sinit && g.sections[|sinit|] == s;
    assert sinit != [] ==> g.sections[|sinit| - 1] == sinit[|sinit| - 1];
    SectionGrow(g.rarity, s, t);
    SectionsSnoc(g.rarity, sinit, s');
    GroupsSnoc(init, g.(sections := sinit + [s']));
  }

  lemma SectionGrow(r: Rarity, s: Section, t: Tile)
    requires SectionOk(r, s) && t.rarity == r && t.attribute == s.attribute
    ensures SectionOk(r, s.(tiles := s.tiles + [t]))
  {
  }

  /** Appending a tile to the last grid appends it to the document-order tiles. */
  lemma GrowLastTiles(init: seq<Group>, g: Group, sinit: seq<Section>, s: Section, t: Tile)
    requires g.sections == sinit + [s]
    ensures GroupTiles(init + [g.(sections := sinit + [s.(tiles := s.tiles + [t])])]) == GroupTiles(init + [g]) + [t]
  {
    var s' := s.(tiles := s.tiles + [t]);
    SectionTilesSnoc(sinit, s');
    SectionTilesSnoc(sinit, s);
    GroupTilesSnoc(init, g.(sections := sinit + [s']));
    GroupTilesSnoc(init, g);
  }

  /** A tile of the current rarity and attribute joins the current grid. */
  lemma PlaceInCurrent(gs: seq<Group>, t: Tile)
    requires GroupsOk(gs) && Current(gs, t.rarity, t.attribute)
    ensures GroupsOk(PlaceTile(gs, t))
    ensures GroupTiles(PlaceTile(gs, t)) == GroupTiles(gs) + [t]
    ensures Current(PlaceTile(gs, t), t.rarity, t.attribute)
  {
    var init, g := gs[..|gs| - 1], gs[|gs| - 1];
    var ss := g.sections;
    var sinit, s := ss[..|ss| - 1], ss[|ss| - 1];
    assert gs == init + [g];
    assert ss == sinit + [s];
    GrowLastOk(init, g, sinit, s, t);
    GrowLastTiles(init, g, sinit, s, t);
  }

  /** A one-tile attribute group of a new attribute, appended to the last rarity group, keeps the groups well formed. */
  lemma SectionAddedOk(init: seq<Group>, g: Group, t: Tile)
    requires GroupsOk(init + [g]) && g.rarity == t.rarity
    requires g.sections != [] && g.sections[|g.sections| - 1].attribute != t.attribute
    ensures GroupsOk(init + [g.(sections := g.sections + [Section(t.attribute, [t])])])
  {
    var s' := Section(t.attribute, [t]);
    GroupsInit(init + [g]);
    assert (init + [g])[..|init|] == init;
    assert SectionOk(g.rarity, s');
    SectionsSnoc(g.rarity, g.sections, s');
    GroupsSnoc(init, g.(sections := g.sections + [s']));
  }

  /** A tile of the current rarity but another attribute opens an attribute group of its own. */
  lemma PlaceInNewSection(gs: seq<Group>, t: Tile, at: Attribute)
    requires GroupsOk(gs) && Current(gs, t.rarity, at) && at != t.attribute
    ensures GroupsOk(PlaceTile(OpenSection(gs, t.attribute), t))
    ensures GroupTiles(PlaceTile(OpenSection(gs, t.attribute), t)) == GroupTiles(gs) + [t]
    ensures Current(PlaceTile(OpenSection(gs, t.attribute), t), t.rarity, t.attribute)
  {
    var init, g := gs[..|gs| - 1], gs[|gs| - 1];
    var s' := Section(t.attribute, [t]);
    assert gs == init + [g];
    SectionAddedOk(init, g, t);
    SectionTilesSnoc(g.sections, s');
    GroupTilesSnoc(init, g.(sections := g.sections + [s']));
    GroupTilesSnoc(init, g);
    NewSectionShape(gs, t);
  }

  /** A tile of another rarity opens a rarity group, and in it an attribute group, of its own. */
  lemma PlaceInNewGroup(gs: seq<Group>, t: Tile)
    requires GroupsOk(gs) && NewRarity(gs, t.rarity)
    ensures GroupsOk(PlaceTile(OpenSection(OpenGroup(gs, t.rarity), t.attribute), t))
    ensures GroupTiles(PlaceTile(OpenSection(OpenGroup(gs, t.rarity), t.attribute), t)) == GroupTiles(gs) + [t]
    ensures Current(PlaceTile(OpenSection(OpenGroup(gs, t.rarity), t.attribute), t), t.rarity, t.attribute)
  {
    var s' := Section(t.attribute, [t]);
    assert SectionOk(t.rarity, s');
    SectionsSnoc(t.rarity, [], s');
    SectionTilesSnoc([], s');
    GroupsSnoc(gs, Group(t.rarity, [s']));
    GroupTilesSnoc(gs, Group(t.rarity, [s']));
    NewGroupShape(gs, t);
  }

  lemma TilesOfPrefix(items: seq<Avatar>, owned: set<string>, i: nat)
    requires i < |items|
    ensures TilesOf(items[..i + 1], owned) == TilesOf(items[..i], owned) + [TileOf(items[i], owned)]
  {
  }

  /**
   * `v` is a rendering of `items`: the empty-result message exactly for no
   * items; otherwise well-formed groups whose tiles, in order, are the
   * items, each marked owned exactly when its id is in `owned`.
   */
  predicate Renders(v: View, items: seq<Avatar>, owned: set<string>) {
    (v == NoResults <==> items == []) && WellFormed(v) && Flatten(v) == TilesOf(items, owned)
  }

  /**
   * renderAvatars: the groups and tiles the walk appends. The result is the
   * placeholder exactly for an empty list; otherwise its groups are well formed
   * and hold, in order, one tile per item of the list.
   */
  method RenderAvatars(items: seq<Avatar>, owned: set<string>) returns (v: View)
    ensures Renders(v, items, owned)
  {
    if |items| == 0 {
      return NoResults;
    }
    var currentRarity: Option<Rarity> := None;
    var currentAttribute: Option<Attribute> := None;
    var groups: seq<Group> := [];
    for i := 0 to |items|
      invariant GroupsOk(groups)
      invariant GroupTiles(groups) == TilesOf(items[..i], owned)
      invariant i == 0 ==> groups == [] && currentRarity == None
      invariant i > 0 ==> && currentRarity == Some(items[i - 1].rarity)
                          && currentAttribute == Some(items[i - 1].attribute)
                          && Current(groups, items[i - 1].rarity, items[i - 1].attribute)
    {
      var avatar := items[i];
      var tile := TileOf(avatar, owned);
      ghost var before := groups;
      ghost var previous := currentAttribute;
      ghost var newRarity := currentRarity != Some(avatar.rarity);
      if currentRarity != Some(avatar.rarity) {
        currentRarity := Some(avatar.rarity);
        currentAttribute := None;
        groups := OpenGroup(groups, avatar.rarity);
      }
      ghost var newAttribute := currentAttribute != Some(avatar.attribute);
      if currentAttribute != Some(avatar.attribute) {
        currentAttribute := Some(avatar.attribute);
        groups := OpenSection(groups, avatar.attribute);
      }
      groups := PlaceTile(groups, tile);
      if newRarity {
        PlaceInNewGroup(before, tile);
      } else if newAttribute {
        PlaceInNewSection(before, tile, previous.value);
      } else {
        PlaceInCurrent(before, tile);
      }
      TilesOfPrefix(items, owned, i);
    }
    assert items[..|items|] == items;
    v := Groups(groups);
  }
  /** Every tile of well-formed attribute groups of rarity `r` has rarity `r`; there is a tile iff there is a group. */
  lemma {:induction false} SectionTilesFacts(r: Rarity, ss: seq<Section>)
    requires SectionsOk(r, ss)
    ensures SectionTiles(ss) == [] <==> ss == []
    ensures forall k :: 0 <= k < |SectionTiles(ss)| ==> SectionTiles(ss)[k].rarity == r
  {
    if ss != [] {
      SectionsInit(r, ss);
      SectionTilesFacts(r, ss[..|ss| - 1]);
      var x: seq<Tile>, y: seq<Tile> := SectionTiles(ss[..|ss| - 1]), ss[|ss| - 1].tiles;
      assert SectionTiles(ss) == x + y;
      forall k | 0 <= k < |x + y| ensures (x + y)[k].rarity == r {
        if k < |x| { assert (x + y)[k] == x[k]; } else { assert (x + y)[k] == y[k - |x|]; }
      }
    }
  }

  /**
   * The last attribute group of well-formed groups holds exactly the final run of
   * tiles of its attribute: the tiles it holds have that attribute, and the tile
   * before them, if any, has another one.
   */
  lemma SectionTailRun(r: Rarity, ss: seq<Section>)
    requires SectionsOk(r, ss) && ss != []
    ensures var t, l := SectionTiles(ss), ss[|ss| - 1];
            && |l.tiles| <= |t|
            && (forall k :: |t| - |l.tiles| <= k < |t| ==> t[k].attribute == l.attribute)
            && (|l.tiles| < |t| ==> t[|t| - |l.tiles| - 1].attribute != l.attribute)
            && t[|t| - |l.tiles|..] == l.tiles
  {
    var init, l := ss[..|ss| - 1], ss[|ss| - 1];
    var x := SectionTiles(init);
    SectionsInit(r, ss);
    SectionTilesFacts(r, init);
    assert SectionTiles(ss) == x + l.tiles;
    if init != [] {
      var p := init[|init| - 1];
      SectionsInit(r, init);
      assert x == SectionTiles(init[..|init| - 1]) + p.tiles;
      assert x[|x| - 1] == p.tiles[|p.tiles| - 1];
      assert (x + l.tiles)[|x| - 1] == x[|x| - 1];
    }
    forall k | |x| <= k < |x| + |l.tiles| ensures (x + l.tiles)[k].attribute == l.attribute {
      assert (x + l.tiles)[k] == l.tiles[k - |x|];
    }
    assert (x + l.tiles)[|x|..] == l.tiles;
  }

  /** Two well-formed, non-empty attribute group lists with the same tiles end in the same attribute group. */
  lemma LastSectionsAgree(r: Rarity, s1: seq<Section>, s2: seq<Section>)
    requires SectionsOk(r, s1) && SectionsOk(r, s2) && SectionTiles(s1) == SectionTiles(s2) && s1 != [] && s2 != []
    ensures s1[|s1| - 1] == s2[|s2| - 1]
    ensures SectionTiles(s1[..|s1| - 1]) == SectionTiles(s2[..|s2| - 1])
  {
    var t := SectionTiles(s1);
    var l1, l2 := s1[|s1| - 1], s2[|s2| - 1];
    SectionTailRun(r, s1);
    SectionTailRun(r, s2);
    assert t[|t| - 1].attribute == l1.attribute;
    assert |l1.tiles| == |l2.tiles|;
    assert t == SectionTiles(s1[..|s1| - 1]) + l1.tiles && t == SectionTiles(s2[..|s2| - 1]) + l2.tiles;
    assert SectionTiles(s1[..|s1| - 1]) == t[..|t| - |l1.tiles|];
  }

  /** Well-formed attribute groups of one rarity are determined by their tiles. */
  lemma {:induction false} SectionsUnique(r: Rarity, s1: seq<Section>, s2: seq<Section>)
    requires SectionsOk(r, s1) && SectionsOk(r, s2) && SectionTiles(s1) == SectionTiles(s2)
    ensures s1 == s2
    decreases |s1|
  {
    SectionTilesFacts(r, s1);
    SectionTilesFacts(r, s2);
    if s1 != [] {
      var i1, l1 := s1[..|s1| - 1], s1[|s1| - 1];
      var i2, l2 := s2[..|s2| - 1], s2[|s2| - 1];
      LastSectionsAgree(r, s1, s2);
      SectionsInit(r, s1);
      SectionsInit(r, s2);
      SectionsUnique(r, i1, i2);
      assert s1 == i1 + [l1] && s2 == i2 + [l2];
    }
  }

  /** There is a tile iff there is a rarity group; the last tile has the last group's rarity. */
  lemma GroupTilesFacts(gs: seq<Group>)
    requires GroupsOk(gs)
    ensures GroupTiles(gs) == [] <==> gs == []
    ensures gs != [] ==> GroupTiles(gs)[|GroupTiles(gs)| - 1].rarity == gs[|gs| - 1].rarity
  {
    if gs != [] {
      var l := gs[|gs| - 1];
      GroupsInit(gs);
      SectionTilesFacts(l.rarity, l.sections);
      var x, y := GroupTiles(gs[..|gs| - 1]), SectionTiles(l.sections);
      assert GroupTiles(gs) == x + y;
      assert (x + y)[|x + y| - 1] == y[|y| - 1];
    }
  }

  /** The last rarity group of well-formed groups holds exactly the final run of tiles of its rarity. */
  lemma GroupTailRun(gs: seq<Group>)
    requires GroupsOk(gs) && gs != []
    ensures var t, l := GroupTiles(gs), SectionTiles(gs[|gs| - 1].sections);
            && |l| <= |t|
            && (forall k :: |t| - |l| <= k < |t| ==> t[k].rarity == gs[|gs| - 1].rarity)
            && (|l| < |t| ==> t[|t| - |l| - 1].rarity != gs[|gs| - 1].rarity)
            && t[|t| - |l|..] == l
  {
    var init, g := gs[..|gs| - 1], gs[|gs| - 1];
    var x, y := GroupTiles(init), SectionTiles(g.sections);
    GroupsInit(gs);
    GroupTilesFacts(init);
    SectionTilesFacts(g.rarity, g.sections);
    assert GroupTiles(gs) == x + y;
    if init != [] {
      assert (x + y)[|x| - 1] == x[|x| - 1];
    }
    forall k | |x| <= k < |x| + |y| ensures (x + y)[k].rarity == g.rarity {
      assert (x + y)[k] == y[k - |x|];
    }
    assert (x + y)[|x|..] == y;
  }

  /** Two well-formed, non-empty group lists with the same tiles end in groups of the same rarity and tiles. */
  lemma LastGroupsAgree(g1: seq<Group>, g2: seq<Group>)
    requires GroupsOk(g1) && GroupsOk(g2) && GroupTiles(g1) == GroupTiles(g2) && g1 != [] && g2 != []
    ensures && g1[|g1| - 1].rarity == g2[|g2| - 1].rarity
            && SectionTiles(g1[|g1| - 1].sections) == SectionTiles(g2[|g2| - 1].sections)
            && GroupTiles(g1[..|g1| - 1]) == GroupTiles(g2[..|g2| - 1])
  {
    GroupTailRun(g1);
    GroupTailRun(g2);
    GroupTilesFacts(g1);
  }

  /** Well-formed rarity groups are determined by their tiles. */
  lemma {:induction false} GroupsUnique(g1: seq<Group>, g2: seq<Group>)
    requires GroupsOk(g1) && GroupsOk(g2) && GroupTiles(g1) == GroupTiles(g2)
    ensures g1 == g2
    decreases |g1|
  {
    GroupTilesFacts(g1);
    GroupTilesFacts(g2);
    if g1 != [] {
      var i1, l1 := g1[..|g1| - 1], g1[|g1| - 1];
      var i2, l2 := g2[..|g2| - 1], g2[|g2| - 1];
      LastGroupsAgree(g1, g2);
      GroupsInit(g1);
      GroupsInit(g2);
      SectionsUnique(l1.rarity, l1.sections, l2.sections);
      GroupsUnique(i1, i2);
      assert g1 == i1 + [l1] && g2 == i2 + [l2];
    }
  }

  /**
   * A well-formed view is determined by its tiles, so the view RenderAvatars
   * produces is the only well-formed one holding the list's tiles in order:
   * groups break exactly where the rarity, or within a rarity the attribute,
   * of consecutive tiles changes.
   */
  lemma ViewsUnique(v1: View, v2: View)
    requires WellFormed(v1) && WellFormed(v2) && Flatten(v1) == Flatten(v2)
    ensures v1 == v2
  {
    if v1.Groups? {
      GroupTilesFacts(v1.groups);
    }
    if v2.Groups? {
      GroupTilesFacts(v2.groups);
    }
    if v1.Groups? && v2.Groups? {
      GroupsUnique(v1.groups, v2.groups);
    }
  }
  /** The index, in document-order tiles, at which each rarity group starts. */
  function GroupStarts(gs: seq<Group>): seq<nat> {
    if gs == [] then [] else GroupStarts(gs[..|gs| - 1]) + [|GroupTiles(gs[..|gs| - 1])|]
  }

  /** The index at which each attribute group of `ss` starts, counting from `base`. */
  function SectionStarts(ss: seq<Section>, base: nat): seq<nat> {
    if ss == [] then [] else SectionStarts(ss[..|ss| - 1], base) + [base + |SectionTiles(ss[..|ss| - 1])|]
  }

  /** The index, in document-order tiles, at which each attribute group of each rarity group starts. */
  function AttributeStarts(gs: seq<Group>): seq<nat> {
    if gs == [] then []
    else AttributeStarts(gs[..|gs| - 1]) + SectionStarts(gs[|gs| - 1].sections, |GroupTiles(gs[..|gs| - 1])|)
  }

  /** Attribute groups of one rarity group start exactly at its first tile and where the attribute changes. */
  lemma {:induction false} SectionBreaks(r: Rarity, ss: seq<Section>, base: nat)
    requires SectionsOk(r, ss)
    ensures forall j: int :: j in SectionStarts(ss, base) <==>
              base <= j < base + |SectionTiles(ss)|
              && (j == base || SectionTiles(ss)[j - base - 1].attribute != SectionTiles(ss)[j - base].attribute)
  {
    var t := SectionTiles(ss);
    if ss != [] {
      var init, l := ss[..|ss| - 1], ss[|ss| - 1];
      var x := SectionTiles(init);
      SectionsInit(r, ss);
      SectionBreaks(r, init, base);
      SectionTailRun(r, ss);
      assert t == x + l.tiles;
      var starts := SectionStarts(init, base);
      assert SectionStarts(ss, base) == starts + [base + |x|];
      forall j: int ensures j in SectionStarts(ss, base) <==>
                         base <= j < base + |t| && (j == base || t[j - base - 1].attribute != t[j - base].attribute)
      {
        if j < base + |x| {
          if base <= j {
            assert t[j - base] == x[j - base];
            if j > base {
              assert t[j - base - 1] == x[j - base - 1];
            }
          }
        } else if j == base + |x| {
          assert t[j - base] == l.tiles[0];
        } else {
          assert j !in starts;
          if j < base + |t| {
            assert t[j - base - 1].attribute == l.attribute == t[j - base].attribute;
          }
        }
      }
    }
  }

  lemma StartsBelow(gs: seq<Group>)
    requires GroupsOk(gs)
    ensures forall j: int :: j in GroupStarts(gs) ==> j < |GroupTiles(gs)|
    ensures forall j: int :: j in AttributeStarts(gs) ==> j < |GroupTiles(gs)|
  {
    if gs != [] {
      var init, g := gs[..|gs| - 1], gs[|gs| - 1];
      GroupsInit(gs);
      StartsBelow(init);
      SectionTilesFacts(g.rarity, g.sections);
      SectionBreaks(g.rarity, g.sections, |GroupTiles(init)|);
    }
  }

  /** Tile `j` exists and starts a run of its rarity. */
  predicate RarityBreak(t: seq<Tile>, j: int) {
    0 <= j < |t| && (j == 0 || t[j - 1].rarity != t[j].rarity)
  }

  /** Tile `j` exists and starts a run of its rarity and attribute. */
  predicate AttributeBreak(t: seq<Tile>, j: int) {
    0 <= j < |t| && (j == 0 || t[j - 1].rarity != t[j].rarity || t[j - 1].attribute != t[j].attribute)
  }

  /** Whether a rarity group starts at index `j`, by induction on the groups. */
  lemma {:induction false} RarityBreakAt(gs: seq<Group>, j: int)
    requires GroupsOk(gs)
    ensures j in GroupStarts(gs) <==> RarityBreak(GroupTiles(gs), j)
  {
    if gs != [] {
      var init, g := gs[..|gs| - 1], gs[|gs| - 1];
      var t, x, y := GroupTiles(gs), GroupTiles(init), SectionTiles(g.sections);
      GroupsInit(gs);
      StartsBelow(init);
      GroupTilesFacts(gs);
      GroupTilesFacts(init);
      SectionTilesFacts(g.rarity, g.sections);
      assert t == x + y;
      assert GroupStarts(gs) == GroupStarts(init) + [|x|];
      if 0 <= j < |x| {
        RarityBreakAt(init, j);
        assert t[j] == x[j];
        if j > 0 {
          assert t[j - 1] == x[j - 1];
        }
      } else if j == |x| && j > 0 {
        assert init[|init| - 1] == gs[|gs| - 2];
        assert t[j - 1] == x[|x| - 1] && t[j] == y[0];
      } else if |x| < j < |t| {
        assert t[j] == y[j - |x|] && t[j - 1] == y[j - |x| - 1];
      }
    }
  }

  /** Rarity groups start exactly at the first tile and wherever the rarity changes. */
  lemma RarityBreaks(gs: seq<Group>)
    requires GroupsOk(gs)
    ensures forall j: int :: j in GroupStarts(gs) <==> RarityBreak(GroupTiles(gs), j)
  {
    forall j: int ensures j in GroupStarts(gs) <==> RarityBreak(GroupTiles(gs), j) {
      RarityBreakAt(gs, j);
    }
  }

  /** Appending tiles does not change where the earlier ones start runs. */
  lemma BreakInPrefix(x: seq<Tile>, y: seq<Tile>, j: int)
    requires 0 <= j < |x|
    ensures RarityBreak(x + y, j) == RarityBreak(x, j)
    ensures AttributeBreak(x + y, j) == AttributeBreak(x, j)
  {
    assert (x + y)[j] == x[j];
    if j > 0 {
      assert (x + y)[j - 1] == x[j - 1];
    }
  }

  /** At or after the first tile of the last rarity group, attribute groups start where its own do. */
  lemma AttributeBreakInLast(gs: seq<Group>, j: int)
    requires GroupsOk(gs) && gs != [] && |GroupTiles(gs[..|gs| - 1])| <= j
    ensures j in SectionStarts(gs[|gs| - 1].sections, |GroupTiles(gs[..|gs| - 1])|) <==> AttributeBreak(GroupTiles(gs), j)
  {
    var init, g := gs[..|gs| - 1], gs[|gs| - 1];
    var t, x, y := GroupTiles(gs), GroupTiles(init), SectionTiles(g.sections);
    GroupsInit(gs);
    GroupTilesFacts(init);
    SectionTilesFacts(g.rarity, g.sections);
    SectionBreaks(g.rarity, g.sections, |x|);
    assert t == x + y;
    if j == |x| && j > 0 {
      assert init[|init| - 1] == gs[|gs| - 2];
      assert t[j - 1] == x[|x| - 1] && t[j] == y[0];
    } else if |x| < j < |t| {
      assert t[j] == y[j - |x|] && t[j - 1] == y[j - |x| - 1];
    }
  }

  /** Whether an attribute group starts at index `j`, by induction on the groups. */
  lemma {:induction false} AttributeBreakAt(gs: seq<Group>, j: int)
    requires GroupsOk(gs)
    ensures j in AttributeStarts(gs) <==> AttributeBreak(GroupTiles(gs), j)
  {
    if gs != [] {
      var init, g := gs[..|gs| - 1], gs[|gs| - 1];
      var x := GroupTiles(init);
      GroupsInit(gs);
      StartsBelow(init);
      SectionBreaks(g.rarity, g.sections, |x|);
      assert GroupTiles(gs) == x + SectionTiles(g.sections);
      assert AttributeStarts(gs) == AttributeStarts(init) + SectionStarts(g.sections, |x|);
      if j < |x| {
        AttributeBreakAt(init, j);
        if 0 <= j {
          BreakInPrefix(x, SectionTiles(g.sections), j);
        }
      } else {
        AttributeBreakInLast(gs, j);
      }
    }
  }

  /** Attribute groups start exactly at every rarity break and wherever the attribute changes. */
  lemma AttributeBreaks(gs: seq<Group>)
    requires GroupsOk(gs)
    ensures forall j: int :: j in AttributeStarts(gs) <==> AttributeBreak(GroupTiles(gs), j)
  {
    forall j: int ensures j in AttributeStarts(gs) <==> AttributeBreak(GroupTiles(gs), j) {
      AttributeBreakAt(gs, j);
    }
  }

  /**
   * In the groups RenderAvatars produces from `items`, a rarity group starts
   * exactly at the first item and wherever an item's rarity differs from the
   * previous one's, and an attribute group starts exactly at every rarity
   * break and wherever the attribute differs from the previous item's.
   */
  lemma RenderBreaks(items: seq<Avatar>, owned: set<string>, gs: seq<Group>, j: int)
    requires GroupsOk(gs) && GroupTiles(gs) == TilesOf(items, owned)
    ensures j in GroupStarts(gs) <==> 0 <= j < |items| && (j == 0 || items[j - 1].rarity != items[j].rarity)
    ensures j in AttributeStarts(gs) <==>
              0 <= j < |items| && (j == 0 || items[j - 1].rarity != items[j].rarity
                                          || items[j - 1].attribute != items[j].attribute)
  {
    var t := GroupTiles(gs);
    RarityBreakAt(gs, j);
    AttributeBreakAt(gs, j);
    if 0 <= j < |items| {
      assert t[j] == TileOf(items[j], owned);
      if j > 0 {
        assert t[j - 1] == TileOf(items[j - 1], owned);
      }
    }
  }

  /**
   * In a well-formed view each heading differs from the one before it at its
   * level: neighbouring rarity groups have different rarity headings, and
   * neighbouring attribute groups of one rarity group have different
   * attribute headings.
   */
  lemma HeadingsOfView(v: View)
    requires WellFormed(v)
    ensures v.Groups? ==> forall i :: 0 < i < |v.groups| ==>
              RarityHeading(v.groups[i - 1].rarity) != RarityHeading(v.groups[i].rarity)
    ensures v.Groups? ==> forall i, n :: 0 <= i < |v.groups| && 0 < n < |v.groups[i].sections| ==>
              AttributeHeading(v.groups[i].sections[n - 1].attribute) != AttributeHeading(v.groups[i].sections[n].attribute)
  {
    if v.Groups? {
      var gs := v.groups;
      forall i | 0 < i < |gs|
        ensures RarityHeading(gs[i - 1].rarity) != RarityHeading(gs[i].rarity)
      {
        HeadingsInjective(gs[i - 1].rarity, gs[i].rarity, Fire, Fire);
      }
      forall i, n | 0 <= i < |gs| && 0 < n < |gs[i].sections|
        ensures AttributeHeading(gs[i].sections[n - 1].attribute) != AttributeHeading(gs[i].sections[n].attribute)
      {
        assert SectionsOk(gs[i].rarity, gs[i].sections);
        HeadingsInjective(L, L, gs[i].sections[n - 1].attribute, gs[i].sections[n].attribute);
      }
    }
  }

  /** At most one view renders a given list. */
  lemma RendersUnique(v1: View, v2: View, items: seq<Avatar>, owned: set<string>)
    requires Renders(v1, items, owned) && Renders(v2, items, owned)
    ensures v1 == v2
  {
    ViewsUnique(v1, v2);
  }

  /** Two tile lists that agree on everything but the owned markers. */
  predicate SameKeys(a: seq<Tile>, b: seq<Tile>) {
    && |a| == |b|
    && forall j :: 0 <= j < |a| ==> a[j].(owned := false) == b[j].(owned := false)
  }

  predicate SameSectionShape(a: Section, b: Section) {
    a.attribute == b.attribute && SameKeys(a.tiles, b.tiles)
  }

  predicate SameGroupShape(a: Group, b: Group) {
    && a.rarity == b.rarity
    && |a.sections| == |b.sections|
    && forall n :: 0 <= n < |a.sections| ==> SameSectionShape(a.sections[n], b.sections[n])
  }

  /**
   * The class change toggleOwnership makes on the clicked element
   * (script.js:173, 176): the tile at position `k` of the tile list gets
   * owned marker `flag`; a position outside the list changes nothing.
   */
  function MarkTileAt(ts: seq<Tile>, k: int, flag: bool): seq<Tile> {
    if 0 <= k < |ts| then ts[k := ts[k].(owned := flag)] else ts
  }

  /** Re-marking changes the marker of tile `k` to `flag` and nothing else. */
  lemma MarkTileAtFacts(ts: seq<Tile>, k: int, flag: bool)
    ensures SameKeys(MarkTileAt(ts, k, flag), ts)
    ensures forall j :: 0 <= j < |ts| ==> MarkTileAt(ts, k, flag)[j].owned == if j == k then flag else ts[j].owned
  {
  }

  /** `MarkTileAt` on the tiles of a list of attribute groups, counted in document order. */
  function MarkSectionsAt(ss: seq<Section>, k: int, flag: bool): (r: seq<Section>)
    ensures |r| == |ss|
  {
    if ss == [] then []
    else
      var init := ss[..|ss| - 1];
      var s := ss[|ss| - 1];
      MarkSectionsAt(init, k, flag) + [Section(s.attribute, MarkTileAt(s.tiles, k - |SectionTiles(init)|, flag))]
  }

  /** `MarkTileAt` on the tiles of a list of rarity groups, counted in document order. */
  function MarkGroupsAt(gs: seq<Group>, k: int, flag: bool): (r: seq<Group>)
    ensures |r| == |gs|
  {
    if gs == [] then []
    else
      var init := gs[..|gs| - 1];
      var g := gs[|gs| - 1];
      MarkGroupsAt(init, k, flag) + [Group(g.rarity, MarkSectionsAt(g.sections, k - |GroupTiles(init)|, flag))]
  }

  function MarkAt(v: View, k: int, flag: bool): View {
    match v
    case NoResults => NoResults
    case Groups(gs) => Groups(MarkGroupsAt(gs, k, flag))
  }

  /** Re-marking keeps every section's attribute and every tile but its marker. */
  lemma {:induction false} MarkSectionsShape(ss: seq<Section>, k: int, flag: bool)
    ensures forall i :: 0 <= i < |ss| ==> SameSectionShape(MarkSectionsAt(ss, k, flag)[i], ss[i])
  {
    if ss != [] {
      var init := ss[..|ss| - 1];
      MarkSectionsShape(init, k, flag);
      MarkTileAtFacts(ss[|ss| - 1].tiles, k - |SectionTiles(init)|, flag);
      var m := MarkSectionsAt(ss, k, flag);
      assert m[..|ss| - 1] == MarkSectionsAt(init, k, flag);
    }
  }

  /** Re-marking keeps every group's rarity and sections but for the markers. */
  lemma {:induction false} MarkGroupsShape(gs: seq<Group>, k: int, flag: bool)
    ensures forall i :: 0 <= i < |gs| ==> SameGroupShape(MarkGroupsAt(gs, k, flag)[i], gs[i])
  {
    if gs != [] {
      var init := gs[..|gs| - 1];
      MarkGroupsShape(init, k, flag);
      var m := MarkGroupsAt(gs, k, flag);
      assert m[..|gs| - 1] == MarkGroupsAt(init, k, flag);
      MarkSectionsShape(gs[|gs| - 1].sections, k - |GroupTiles(init)|, flag);
    }
  }

  lemma MarkTileAtAppend(a: seq<Tile>, b: seq<Tile>, k: int, flag: bool)
    ensures MarkTileAt(a + b, k, flag) == MarkTileAt(a, k, flag) + MarkTileAt(b, k - |a|, flag)
  {
  }

  lemma {:induction false} MarkSectionTiles(ss: seq<Section>, k: int, flag: bool)
    ensures SectionTiles(MarkSectionsAt(ss, k, flag)) == MarkTileAt(SectionTiles(ss), k, flag)
  {
    if ss != [] {
      var init := ss[..|ss| - 1];
      var s := ss[|ss| - 1];
      var off := k - |SectionTiles(init)|;
      var mi := MarkSectionsAt(init, k, flag);
      var ms := Section(s.attribute, MarkTileAt(s.tiles, off, flag));
      assert MarkSectionsAt(ss, k, flag) == mi + [ms];
      assert SectionTiles(ss) == SectionTiles(init) + s.tiles;
      SectionTilesSnoc(mi, ms);
      MarkSectionTiles(init, k, flag);
      MarkTileAtAppend(SectionTiles(init), s.tiles, k, flag);
    }
  }

  /** The tiles of the re-marked groups: those of the re-marked prefix, then of the re-marked last group. */
  lemma MarkGroupTilesLast(gs: seq<Group>, k: int, flag: bool)
    requires gs != []
    ensures var init := gs[..|gs| - 1];
      GroupTiles(MarkGroupsAt(gs, k, flag))
        == GroupTiles(MarkGroupsAt(init, k, flag)) + SectionTiles(MarkSectionsAt(gs[|gs| - 1].sections, k - |GroupTiles(init)|, flag))
  {
    var init, g := gs[..|gs| - 1], gs[|gs| - 1];
    var mi := MarkGroupsAt(init, k, flag);
    var mg := Group(g.rarity, MarkSectionsAt(g.sections, k - |GroupTiles(init)|, flag));
    assert MarkGroupsAt(gs, k, flag) == mi + [mg];
    GroupTilesSnoc(mi, mg);
  }

  lemma {:induction false} MarkGroupTiles(gs: seq<Group>, k: int, flag: bool)
    ensures GroupTiles(MarkGroupsAt(gs, k, flag)) == MarkTileAt(GroupTiles(gs), k, flag)
  {
    if gs == [] {
      assert MarkGroupsAt(gs, k, flag) == [];
    } else {
      var init, g := gs[..|gs| - 1], gs[|gs| - 1];
      var off := k - |GroupTiles(init)|;
      assert GroupTiles(gs) == GroupTiles(init) + SectionTiles(g.sections);
      MarkGroupTilesLast(gs, k, flag);
      MarkGroupTiles(init, k, flag);
      MarkSectionTiles(g.sections, off, flag);
      MarkTileAtAppend(GroupTiles(init), SectionTiles(g.sections), k, flag);
    }
  }

  /** Re-marking one tile keeps the grouping well formed and its tiles in place. */
  lemma MarkWellFormed(v: View, k: int, flag: bool)
    requires WellFormed(v)
    ensures WellFormed(MarkAt(v, k, flag))
    ensures MarkAt(v, k, flag) == NoResults <==> v == NoResults
    ensures Flatten(MarkAt(v, k, flag)) == MarkTileAt(Flatten(v), k, flag)
  {
    if v.Groups? {
      var gs := v.groups;
      var ms := MarkGroupsAt(gs, k, flag);
      MarkGroupTiles(gs, k, flag);
      MarkGroupsShape(gs, k, flag);
      forall i | 0 <= i < |gs|
        ensures ms[i].sections != [] && SectionsOk(ms[i].rarity, ms[i].sections)
      {
        var ss := gs[i].sections;
        assert SectionsOk(gs[i].rarity, ss);
        assert SameGroupShape(ms[i], gs[i]);
        forall n | 0 <= n < |ss| ensures SectionOk(gs[i].rarity, ms[i].sections[n]) {
          assert SectionOk(gs[i].rarity, ss[n]);
          assert SameSectionShape(ms[i].sections[n], ss[n]);
          var a, b := ms[i].sections[n].tiles, ss[n].tiles;
          forall j | 0 <= j < |a| ensures a[j].rarity == gs[i].rarity && a[j].attribute == ms[i].sections[n].attribute {
            assert a[j].(owned := false) == b[j].(owned := false);
          }
        }
      }
    }
  }

  /** No tile but the one at `k` shows the avatar with that tile's id. */
  predicate OnlyTileOfItsId(items: seq<Avatar>, k: int) {
    && 0 <= k < |items|
    && forall j :: 0 <= j < |items| && j != k ==> items[j].id != items[k].id
  }

  /** With distinct ids, every tile is the only one of its id. */
  lemma UniqueIdsOnlyTile(items: seq<Avatar>, k: int)
    requires UniqueIds(items) && 0 <= k < |items|
    ensures OnlyTileOfItsId(items, k)
  {
    forall j | 0 <= j < |items| && j != k ensures items[j].id != items[k].id {
      if j < k {
        assert items[j].id != items[k].id;
      } else {
        assert items[k].id != items[j].id;
      }
    }
  }

  /**
   * A click on tile `k` toggles its avatar's id. Re-marking only that tile
   * turns the rendering of `items` under the old owned set into their
   * rendering under the new one exactly when no other tile shows the same
   * id; otherwise that other tile keeps its old marker.
   */
  lemma MarkAfterToggle(items: seq<Avatar>, before: set<string>, after: set<string>, k: int, v: View)
    requires WellFormed(v) && Flatten(v) == TilesOf(items, before) && 0 <= k < |items|
    requires (items[k].id in after) != (items[k].id in before)
    requires forall x :: x != items[k].id ==> (x in after <==> x in before)
    ensures WellFormed(MarkAt(v, k, items[k].id in after))
    ensures Flatten(MarkAt(v, k, items[k].id in after)) == TilesOf(items, after) <==> OnlyTileOfItsId(items, k)
  {
    var flag := items[k].id in after;
    MarkWellFormed(v, k, flag);
    MarkTileAtFacts(Flatten(v), k, flag);
    var m := Flatten(MarkAt(v, k, flag));
    var want := TilesOf(items, after);
    if OnlyTileOfItsId(items, k) {
      forall j | 0 <= j < |items| ensures m[j] == want[j] {
        assert TilesOf(items, before)[j] == TileOf(items[j], before);
      }
    } else {
      var j :| 0 <= j < |items| && j != k && items[j].id == items[k].id;
      assert TilesOf(items, before)[j] == TileOf(items[j], before);
      assert m[j].owned != want[j].owned;
    }
  }
}
