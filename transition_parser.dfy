/**
 * The input-transition reader: one record per `TransitionType` element that has a
 * `Description`, carrying its map and static tiles, with hex tile ids written in decimal.
 */
module TransitionParsing {

  import opened Wrappers
  import opened Text
  import opened Xml
  import opened TransInfos

  /* ---------- tile ids ---------- */

  /**
   * A `TileID` matching `0x[0-9a-f]+` (either case, prefix included) is rewritten as
   * the decimal string of its value; any other id is kept as it is.
   */
  function NormaliseTileId(tileId: string): (r: string)
    ensures IsHexLiteral(tileId) ==> AllDigits(r)
    ensures !IsHexLiteral(tileId) ==> r == tileId
  {
    if IsHexLiteral(tileId) then
      var n := HexValue(tileId[2..]);
      DecRoundTrip(n);
      ShowDec(n)
    else tileId
  }

  /** A rewritten id reads, in decimal, as the value of the hex digits after `0x`. */
  lemma NormaliseValue(tileId: string)
    requires IsHexLiteral(tileId)
    ensures DecValue(NormaliseTileId(tileId)) == HexValue(tileId[2..])
  {
    DecRoundTrip(HexValue(tileId[2..]));
  }

  /** A decimal string never has the `0x` form, so it is left alone. */
  lemma DecimalIdKept(tileId: string)
    requires AllDigits(tileId)
    ensures NormaliseTileId(tileId) == tileId
  {
    if |tileId| >= 2 {
      assert IsDigit(tileId[1]);
    }
  }

  /** Normalising twice is normalising once: no hex literal survives. */
  lemma NormaliseIdempotent(tileId: string)
    ensures NormaliseTileId(NormaliseTileId(tileId)) == NormaliseTileId(tileId)
    ensures !IsHexLiteral(NormaliseTileId(tileId))
  {
    if IsHexLiteral(tileId) {
      DecimalIdKept(NormaliseTileId(tileId));
    }
  }

  /** Empty ids stay empty and only they do, so the "TileID present" test is unaffected. */
  lemma NormaliseNonEmpty(tileId: string)
    ensures NormaliseTileId(tileId) == "" <==> tileId == ""
  {
  }

  /** The id written as `0x` or `0X` followed by its uppercase hex digits reads back as its decimal. */
  lemma NormaliseHexForm(n: nat)
    ensures NormaliseTileId("0x" + ShowHex(n)) == ShowDec(n)
    ensures NormaliseTileId("0X" + ShowHex(n)) == ShowDec(n)
  {
    HexRoundTrip(n);
    NormalisePrefixed("0x", ShowHex(n));
    NormalisePrefixed("0X", ShowHex(n));
  }

  lemma NormalisePrefixed(p: string, h: string)
    requires p == "0x" || p == "0X"
    requires |h| > 0 && forall k :: 0 <= k < |h| ==> IsHexDigit(h[k])
    ensures NormaliseTileId(p + h) == ShowDec(HexValue(h))
  {
    assert (p + h)[2..] == h;
    assert IsHexLiteral(p + h) by {
      forall k | 2 <= k < |p + h| ensures IsHexDigit((p + h)[k]) {
        assert (p + h)[k] == h[k - 2];
      }
    }
  }

  lemma NormaliseExamples()
    ensures NormaliseTileId("0x2A") == "42"
    ensures NormaliseTileId("0x") == "0x"
    ensures NormaliseTileId("0x2G") == "0x2G"
    ensures NormaliseTileId("12") == "12"
  {
    assert "0x2A"[2..] == "2A";
    assert HexValue("2A") == 42 by {
      assert "2A"[..1] == "2";
    }
    assert ShowDec(42) == "42" by {
      assert ShowDec(4) == "4";
    }
    assert !IsHexDigit("0x2G"[3]);
    DecimalIdKept("12");
  }

  /* ---------- tiles and records ---------- */

  /** A tile as the parser keeps it: both fields non-empty, no hex literal as id. */
  predicate WellFormedTile(t: Tile) {
    t.tileId != "" && t.altIdMod != "" && IsStripped(t.altIdMod) && !IsHexLiteral(t.tileId)
  }

  predicate AllWellFormed(tiles: seq<Tile>) {
    forall k :: 0 <= k < |tiles| ==> WellFormedTile(tiles[k])
  }

  /** One `MapTile`/`StaticTile` element: kept when its id and `AltIDMod` are both non-empty. */
  function TileOf(e: Element): (r: Option<Tile>)
    ensures r.Some? <==> Attribute(e, "TileID") != "" && Attribute(e, "AltIDMod") != ""
    ensures r.Some? ==> r.value == Tile(NormaliseTileId(Attribute(e, "TileID")), Attribute(e, "AltIDMod"))
  {
    var tileId := NormaliseTileId(Attribute(e, "TileID"));
    var altIdMod := Attribute(e, "AltIDMod");
    if tileId != "" && altIdMod != "" then Some(Tile(tileId, altIdMod)) else None
  }

  /** A kept tile has both fields, a stripped `AltIDMod` and no hex literal left as id. */
  lemma TileWellFormed(e: Element)
    ensures TileOf(e).Some? ==> WellFormedTile(TileOf(e).value)
  {
    NormaliseIdempotent(Attribute(e, "TileID"));
  }

  /** The kept tiles of a sequence of tile elements, in document order. */
  function TilesOf(es: seq<Element>): (r: seq<Tile>)
    ensures |r| <= |es|
  {
    if es == [] then [] else TilesOf(es[..|es| - 1]) + Kept(es[|es| - 1])
  }

  /** The tiles one element contributes: its tile, or none. */
  function Kept(e: Element): (r: seq<Tile>)
    ensures |r| <= 1
  {
    if TileOf(e).Some? then [TileOf(e).value] else []
  }

  lemma {:induction false} TilesOfConcat(a: seq<Element>, b: seq<Element>)
    ensures TilesOf(a + b) == TilesOf(a) + TilesOf(b)
  {
    if b != [] {
      var b' := b[..|b| - 1];
      assert (a + b)[..|a + b| - 1] == a + b';
      TilesOfConcat(a, b');
    } else {
      assert a + b == a;
    }
  }

  lemma {:induction false} TilesOfWellFormed(es: seq<Element>)
    ensures AllWellFormed(TilesOf(es))
  {
    if es != [] {
      var prefix, tail := TilesOf(es[..|es| - 1]), Kept(es[|es| - 1]);
      TilesOfWellFormed(es[..|es| - 1]);
      TileWellFormed(es[|es| - 1]);
      assert AllWellFormed(tail);
      forall k | |prefix| <= k < |prefix + tail| ensures WellFormedTile((prefix + tail)[k]) {
        assert (prefix + tail)[k] == tail[k - |prefix|];
      }
    }
  }

  lemma TilesOfStep(es: seq<Element>, j: nat)
    requires j < |es|
    ensures TilesOf(es[..j + 1]) == TilesOf(es[..j]) + Kept(es[j])
  {
    assert es[..j + 1][..j] == es[..j];
  }

  /** A tile element yields its tile, or nothing when a field is missing. */
  lemma TilesOfSingle(e: Element)
    ensures TilesOf([e]) == if TileOf(e).Some? then [TileOf(e).value] else []
  {
    assert [e][..0] == [];
  }

  /** The tiles under the first `container` child: `[]` when there is none. */
  function ContainerTiles(t: Element, container: string, tag: string): (r: seq<Tile>)
    ensures Find(t, container).None? ==> r == []
    ensures Find(t, container).Some? ==> r == TilesOf(FindAll(Find(t, container).value, tag))
  {
    match Find(t, container)
    case None => []
    case Some(c) => TilesOf(FindAll(c, tag))
  }

  lemma ContainerTilesWellFormed(t: Element, container: string, tag: string)
    ensures AllWellFormed(ContainerTiles(t, container, tag))
  {
    if Find(t, container).Some? {
      TilesOfWellFormed(FindAll(Find(t, container).value, tag));
    }
  }

  /** A record as the parser keeps it: described, without a hashkey yet, with well-formed tiles. */
  predicate WellFormedRecord(r: TransInfo) {
    && r.description != "" && IsStripped(r.description)
    && r.hashkey == ""
    && AllWellFormed(r.maptiles) && AllWellFormed(r.statictiles)
  }

  /** One `TransitionType` element: a record when its `Description` is non-empty. */
  function RecordOf(e: Element): (r: Option<TransInfo>)
    ensures r.Some? <==> Attribute(e, "Description") != ""
    ensures r.Some? ==> r.value.description == Attribute(e, "Description") && r.value.hashkey == ""
    ensures r.Some? ==> && r.value.maptiles == ContainerTiles(e, "MapTiles", "MapTile")
                        && r.value.statictiles == ContainerTiles(e, "StaticTiles", "StaticTile")
  {
    var description := Attribute(e, "Description");
    if description == "" then None
    else
      Some(TransInfo(description, "",
                     ContainerTiles(e, "MapTiles", "MapTile"),
                     ContainerTiles(e, "StaticTiles", "StaticTile")))
  }

  /** Every record is described, has no hashkey yet, and only well-formed tiles. */
  lemma RecordWellFormed(e: Element)
    ensures RecordOf(e).Some? ==> WellFormedRecord(RecordOf(e).value)
  {
    ContainerTilesWellFormed(e, "MapTiles", "MapTile");
    ContainerTilesWellFormed(e, "StaticTiles", "StaticTile");
  }

  /** The records of a sequence of `TransitionType` elements, in document order, duplicates kept. */
  function RecordsOf(es: seq<Element>): (r: seq<TransInfo>)
    ensures |r| <= |es|
  {
    if es == [] then []
    else
      RecordsOf(es[..|es| - 1]) + Recorded(es[|es| - 1])
  }

  /** The records one element contributes: its record, or none. */
  function Recorded(e: Element): (r: seq<TransInfo>)
    ensures |r| <= 1
  {
    if RecordOf(e).Some? then [RecordOf(e).value] else []
  }

  lemma {:induction false} RecordsOfWellFormed(es: seq<Element>)
    ensures forall k :: 0 <= k < |RecordsOf(es)| ==> WellFormedRecord(RecordsOf(es)[k])
  {
    if es != [] {
      RecordsOfWellFormed(es[..|es| - 1]);
      RecordWellFormed(es[|es| - 1]);
      AppendWellFormed(RecordsOf(es[..|es| - 1]), Recorded(es[|es| - 1]));
    }
  }

  lemma {:induction false} RecordsOfConcat(a: seq<Element>, b: seq<Element>)
    ensures RecordsOf(a + b) == RecordsOf(a) + RecordsOf(b)
  {
    if b != [] {
      var b' := b[..|b| - 1];
      assert (a + b)[..|a + b| - 1] == a + b';
      RecordsOfConcat(a, b');
    } else {
      assert a + b == a;
    }
  }

  /** Each described element contributes exactly one record and the others none. */
  lemma RecordsOfSingle(e: Element)
    ensures RecordsOf([e]) == if Attribute(e, "Description") != "" then [RecordOf(e).value] else []
  {
    assert [e][..0] == [];
  }

  lemma RecordsOfStep(es: seq<Element>, i: nat)
    requires i < |es|
    ensures RecordsOf(es[..i + 1]) == RecordsOf(es[..i]) + Recorded(es[i])
  {
    assert es[..i + 1][..i] == es[..i];
  }

  lemma AppendAssoc<T>(xs: seq<T>, ys: seq<T>, zs: seq<T>)
    ensures xs + ys + zs == xs + (ys + zs)
  {
  }

  lemma AppendWellFormed(xs: seq<TransInfo>, ys: seq<TransInfo>)
    requires forall k :: 0 <= k < |xs| ==> WellFormedRecord(xs[k])
    requires forall k :: 0 <= k < |ys| ==> WellFormedRecord(ys[k])
    ensures forall k :: 0 <= k < |xs + ys| ==> WellFormedRecord((xs + ys)[k])
  {
    forall k | |xs| <= k < |xs + ys| ensures WellFormedRecord((xs + ys)[k]) {
      assert (xs + ys)[k] == ys[k - |xs|];
    }
  }

  /** The parser's state: its list of records. */
  class TransitionParser {
    var transitionEntries: seq<TransInfo>

    ghost predicate Valid()
      reads this
    {
      forall k :: 0 <= k < |transitionEntries| ==> WellFormedRecord(transitionEntries[k])
    }

    /** Reads every `TransitionType` child of the input document's root. */
    constructor (root: Element)
      ensures Valid()
      ensures transitionEntries == RecordsOf(FindAll(root, "TransitionType"))
    {
      transitionEntries := [];
      new;
      ParseTransitions(root);
      ghost var records := RecordsOf(FindAll(root, "TransitionType"));
      assert [] + records == records;
    }

    /** `parse_transitions`: appends one record per described `TransitionType` child. */
    method ParseTransitions(root: Element)
      requires Valid()
      modifies this
      ensures Valid()
      ensures transitionEntries == old(transitionEntries) + RecordsOf(FindAll(root, "TransitionType"))
    {
      var elements := FindAll(root, "TransitionType");
      ghost var start := transitionEntries;
      for i := 0 to |elements|
        invariant transitionEntries == start + RecordsOf(elements[..i])
      {
        RecordsOfStep(elements, i);
        ghost var done, next := RecordsOf(elements[..i]), Recorded(elements[i]);
        AddTransition(elements[i]);
        AppendAssoc(start, done, next);
      }
      assert elements[..|elements|] == elements;
      RecordsOfWellFormed(elements);
      AppendWellFormed(start, RecordsOf(elements));
    }

    /** The body of the loop in `parse_transitions`: one `TransitionType` element. */
    method AddTransition(transitionType: Element)
      modifies this
      ensures transitionEntries == old(transitionEntries) + Recorded(transitionType)
    {
      var description := Attribute(transitionType, "Description");
      if description == "" {
        return;
      }
      var maptiles := ParseTiles(transitionType, "MapTiles", "MapTile");
      var statictiles := ParseTiles(transitionType, "StaticTiles", "StaticTile");
      transitionEntries := transitionEntries + [TransInfo(description, "", maptiles, statictiles)];
    }

    /** One of the two tile loops of `parse_transitions`. */
    static method ParseTiles(transitionType: Element, container: string, tag: string) returns (tiles: seq<Tile>)
      ensures tiles == ContainerTiles(transitionType, container, tag)
    {
      tiles := [];
      var tilesElement := Find(transitionType, container);
      if tilesElement.None? {
        return;
      }
      var elements := FindAll(tilesElement.value, tag);
      for j := 0 to |elements|
        invariant tiles == TilesOf(elements[..j])
      {
        TilesOfStep(elements, j);
        var tile := ReadTile(elements[j]);
        if tile.Some? {
          tiles := tiles + [tile.value];
        }
      }
      assert elements[..|elements|] == elements;
    }

    /** The body of a tile loop: the id, rewritten when it is a hex literal, and `AltIDMod`. */
    static method ReadTile(tileElement: Element) returns (tile: Option<Tile>)
      ensures tile == TileOf(tileElement)
    {
      var tileId := Attribute(tileElement, "TileID");
      if IsHexLiteral(tileId) {
        tileId := ShowDec(HexValue(tileId[2..]));
      }
      var altIdMod := Attribute(tileElement, "AltIDMod");
      if tileId != "" && altIdMod != "" {
        tile := Some(Tile(tileId, altIdMod));
      } else {
        tile := None;
      }
    }

    /** `get_transitions`: the parsed records, in order, all well-formed. */
    function GetTransitions(): (entries: seq<TransInfo>)
      reads this
      requires Valid()
      ensures |entries| == |transitionEntries|
      ensures forall k :: 0 <= k < |entries| ==> WellFormedRecord(entries[k])
      ensures entries == transitionEntries
    {
      transitionEntries
    }
  }
}
