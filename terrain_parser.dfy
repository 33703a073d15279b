/**
 * The terrain registry: a sequence of `Terrain` elements becomes three indices over the
 * same records (by lowercase name, by two-digit hex ID, by decimal ID); a user selector
 * is resolved by name first, then as `0x`-hex, then as decimal.
 */
module TerrainParsing {

  import opened Wrappers
  import opened Text
  import opened OrderedMaps
  import opened Xml

  /** One terrain record: the `Name`, `ID_dec` and `ID_hex` entries of the dict `parse_terrains` builds. */
  datatype Terrain = Terrain(name: string, idDec: string, idHex: string)

  /** The three indices: `terrains` (insertion-ordered), `terrains_by_hex`, `terrains_by_dec`. */
  datatype TerrainIndex = TerrainIndex(
    byName: OrderedMap<Terrain>,
    byHex: map<string, Terrain>,
    byDec: map<string, Terrain>)

  function EmptyIndex(): TerrainIndex {
    TerrainIndex(EmptyMap(), map[], map[])
  }

  /**
   * A record the parser can build: a stripped non-empty name, a canonical decimal ID
   * and the `02X` rendering of the same value.
   */
  ghost predicate WellFormed(t: Terrain) {
    && t.name != ""
    && IsStripped(t.name)
    && exists n: nat :: HasId(t, n)
  }

  /** `ID_dec` is `str(n)` and `ID_hex` is `f"{n:02X}"`. */
  predicate HasId(t: Terrain, n: nat) {
    t.idDec == ShowDec(n) && t.idHex == Hex2(n)
  }

  /** Every index holds well-formed records, each filed under its own key. */
  ghost predicate IndexValid(ix: TerrainIndex) {
    && ix.byName.Valid()
    && (forall k :: k in ix.byName.entries ==>
          WellFormed(ix.byName.entries[k]) && Lower(ix.byName.entries[k].name) == k)
    && (forall h :: h in ix.byHex ==> WellFormed(ix.byHex[h]) && ix.byHex[h].idHex == h)
    && (forall d :: d in ix.byDec ==> WellFormed(ix.byDec[d]) && ix.byDec[d].idDec == d)
  }

  /**
   * The record one `Terrain` element yields, or None when it is skipped: its stripped
   * `Name` or `ID` is empty, or the `ID` is not a decimal integer.
   */
  function ParseEntry(e: Element): (r: Option<Terrain>)
    ensures r.Some? <==> Attribute(e, "Name") != "" && AllDigits(Attribute(e, "ID"))
    ensures r.Some? ==> && WellFormed(r.value)
                        && r.value.name == Attribute(e, "Name")
                        && HasId(r.value, DecValue(Attribute(e, "ID")))
  {
    var name := Attribute(e, "Name");
    var idString := Attribute(e, "ID");
    if name == "" || idString == "" then None
    else
      match ParseInt(idString)
      case None => None
      case Some(id) =>
        assert HasId(Terrain(name, ShowDec(id), Hex2(id)), id);
        Some(Terrain(name, ShowDec(id), Hex2(id)))
  }

  /** Files a record under its lowercase name, its hex ID and its decimal ID. */
  function Insert(ix: TerrainIndex, t: Terrain): TerrainIndex {
    TerrainIndex(ix.byName.Put(Lower(t.name), t), ix.byHex[t.idHex := t], ix.byDec[t.idDec := t])
  }

  /** The effect of one element on the indices. */
  function AddEntry(ix: TerrainIndex, e: Element): TerrainIndex {
    match ParseEntry(e)
    case None => ix
    case Some(t) => Insert(ix, t)
  }

  /** The effect of a sequence of elements, processed in document order. */
  function AddEntries(ix: TerrainIndex, es: seq<Element>): TerrainIndex {
    if es == [] then ix else AddEntry(AddEntries(ix, es[..|es| - 1]), es[|es| - 1])
  }

  /** Parsing one more element of a prefix. */
  lemma AddEntriesStep(ix: TerrainIndex, es: seq<Element>, i: nat)
    requires i < |es|
    ensures AddEntries(ix, es[..i + 1]) == AddEntry(AddEntries(ix, es[..i]), es[i])
  {
    assert es[..i + 1][..i] == es[..i];
  }

  /**
   * An accepted entry is filed under all three keys, replacing what was there, and
   * every other key keeps its record.
   */
  lemma InsertEffect(ix: TerrainIndex, e: Element, t: Terrain)
    requires ParseEntry(e) == Some(t)
    ensures var ix' := AddEntry(ix, e);
            && ix'.byName.entries == ix.byName.entries[Lower(t.name) := t]
            && ix'.byHex == ix.byHex[t.idHex := t]
            && ix'.byDec == ix.byDec[t.idDec := t]
            && t.name == Attribute(e, "Name")
            && HasId(t, DecValue(Attribute(e, "ID")))
  {
  }

  /** A skipped entry leaves all three indices as they were. */
  lemma SkipEffect(ix: TerrainIndex, e: Element)
    requires Attribute(e, "Name") == "" || Attribute(e, "ID") == "" || !AllDigits(Attribute(e, "ID"))
    ensures AddEntry(ix, e) == ix
  {
  }

  /** Inserting a well-formed record keeps the indices valid. */
  lemma InsertValid(ix: TerrainIndex, t: Terrain)
    requires IndexValid(ix) && WellFormed(t)
    ensures IndexValid(Insert(ix, t))
  {
  }

  /** Parsing any sequence of elements keeps the indices valid. */
  lemma {:induction false} AddEntriesValid(ix: TerrainIndex, es: seq<Element>)
    requires IndexValid(ix)
    ensures IndexValid(AddEntries(ix, es))
  {
    if es != [] {
      AddEntriesValid(ix, es[..|es| - 1]);
      var e := es[|es| - 1];
      match ParseEntry(e)
      case None =>
      case Some(t) => InsertValid(AddEntries(ix, es[..|es| - 1]), t);
    }
  }

  /**
   * IDs 0..255 get a hex key of exactly two uppercase digits that reads back as the ID;
   * larger IDs get a longer one; the decimal key is a digit string with the ID's value.
   */
  lemma IdForms(t: Terrain, n: nat)
    requires HasId(t, n)
    ensures n < 256 <==> |t.idHex| == 2
    ensures |t.idHex| >= 2 && forall k :: 0 <= k < |t.idHex| ==> IsUpperHexDigit(t.idHex[k])
    ensures HexValue(t.idHex) == n
    ensures AllDigits(t.idDec) && DecValue(t.idDec) == n
  {
    Hex2Width(n);
    DecRoundTrip(n);
  }

  /**
   * `get_terrain_by_str`: strip and lowercase the input; a name-index hit wins; else a
   * `0x<hexdigits>` input is looked up (digits uppercased) in the hex index only; else an
   * all-digit input is looked up in the decimal index; anything else is not found.
   */
  function Lookup(ix: TerrainIndex, input: string): (r: Option<Terrain>)
    ensures r.Some? ==> r.value in ix.byName.entries.Values || r.value in ix.byHex.Values || r.value in ix.byDec.Values
  {
    var inputLower := Lower(Strip(input));
    if inputLower in ix.byName.entries then Some(ix.byName.entries[inputLower])
    else if IsHexLiteral(inputLower) then Get(ix.byHex, Upper(inputLower[2..]))
    else if AllDigits(inputLower) then Get(ix.byDec, inputLower)
    else None
  }

  /**
   * Whatever the lookup returns was filed under a key derived from the input: the
   * lowercase name, the uppercased hex digits after `0x`, or the decimal string.
   */
  lemma LookupSound(ix: TerrainIndex, input: string, t: Terrain)
    requires IndexValid(ix)
    requires Lookup(ix, input) == Some(t)
    ensures WellFormed(t)
    ensures var s := Lower(Strip(input));
            || (s in ix.byName.entries && Lower(t.name) == s)
            || (s !in ix.byName.entries && IsHexLiteral(s) && t.idHex == Upper(s[2..]))
            || (s !in ix.byName.entries && !IsHexLiteral(s) && AllDigits(s) && t.idDec == s)
  {
  }

  /** A hex-shaped input that misses the hex index is not retried as a decimal ID. */
  lemma LookupHexNoFallThrough(ix: TerrainIndex, input: string)
    requires var s := Lower(Strip(input));
             s !in ix.byName.entries && IsHexLiteral(s) && Upper(s[2..]) !in ix.byHex
    ensures Lookup(ix, input) == None
  {
  }

  /** Every hex key has at least two digits, since it is a `02X` rendering. */
  lemma HexKeysPadded(ix: TerrainIndex, h: string)
    requires IndexValid(ix) && h in ix.byHex
    ensures |h| >= 2
  {
    var n :| HasId(ix.byHex[h], n);
    Hex2Width(n);
  }

  /**
   * A one-digit hex input such as `0x5` never finds a terrain through the hex index:
   * the index is keyed by the zero-padded `05`.
   */
  lemma LookupOneDigitHex(ix: TerrainIndex, d: char)
    requires IndexValid(ix) && IsHexDigit(d)
    requires ['0', 'x', LowerChar(d)] !in ix.byName.entries
    ensures Lookup(ix, ['0', 'x', d]) == None
  {
    var input := ['0', 'x', d];
    assert "0x" + [d] == input;
    HexSelectorForm("0x", [d]);
    var s := Lower(Strip(input));
    assert s == "0x" + Lower([d]);
    assert s == ['0', 'x', LowerChar(d)];
    assert s !in ix.byName.entries && IsHexLiteral(s);
    var key := Upper(s[2..]);
    assert |key| == 1;
    if key in ix.byHex {
      HexKeysPadded(ix, key);
    }
    LookupHexNoFallThrough(ix, input);
  }

  /**
   * Hex digits without the `0x` prefix are not an id: a selector such as `AB`, whose
   * normalised form is hex digits with at least one letter, resolves only as a name.
   */
  lemma LookupBareHex(ix: TerrainIndex, input: string)
    requires var s := Lower(Strip(input));
             && s !in ix.byName.entries
             && (forall k :: 0 <= k < |s| ==> IsHexDigit(s[k]))
             && (exists k :: 0 <= k < |s| && 'a' <= s[k] <= 'f')
    ensures Lookup(ix, input) == None
  {
    var s := Lower(Strip(input));
    var k :| 0 <= k < |s| && 'a' <= s[k] <= 'f';
    assert !IsDigit(s[k]);
    if |s| >= 2 {
      assert IsHexDigit(s[1]);
    }
  }

  /** The selector `AB` that the error message offers finds nothing unless a terrain is named so. */
  lemma LookupBareHexExample(ix: TerrainIndex)
    requires "ab" !in ix.byName.entries
    ensures Lookup(ix, "AB") == None
  {
    StripJoined("A", "B");
    assert "A" + "B" == "AB";
    assert Lower("AB") == "ab";
    assert 'a' <= "ab"[0] <= 'f';
    LookupBareHex(ix, "AB");
  }

  /** The name index is consulted first: any spelling of a filed name finds its record. */
  lemma LookupByName(ix: TerrainIndex, t: Terrain, input: string)
    requires Lower(t.name) in ix.byName.entries && ix.byName.entries[Lower(t.name)] == t
    requires Lower(Strip(input)) == Lower(t.name)
    ensures Lookup(ix, input) == Some(t)
  {
  }

  /** A well-formed record is found by its own name, in upper or lower case. */
  lemma LookupByOwnName(ix: TerrainIndex, t: Terrain)
    requires WellFormed(t)
    requires Lower(t.name) in ix.byName.entries && ix.byName.entries[Lower(t.name)] == t
    ensures Lookup(ix, t.name) == Some(t)
    ensures Lookup(ix, Upper(t.name)) == Some(t)
    ensures Lookup(ix, Lower(t.name)) == Some(t)
  {
    StripStripped(t.name);
    CaseStripped(t.name);
    StripStripped(Upper(t.name));
    StripStripped(Lower(t.name));
    LowerOfCase(t.name);
  }

  /** ASCII case mapping does not create or remove whitespace at the ends. */
  lemma CaseStripped(s: string)
    requires IsStripped(s)
    ensures IsStripped(Upper(s)) && IsStripped(Lower(s))
  {
  }

  /**
   * `"0x" + ID_hex`, with either case of prefix and digits, finds the record filed
   * under that hex key, unless that string is itself a terrain name.
   */
  lemma {:induction false} LookupByHex(ix: TerrainIndex, t: Terrain, input: string)
    requires WellFormed(t)
    requires t.idHex in ix.byHex && ix.byHex[t.idHex] == t
    requires Lower(Strip(input)) == "0x" + Lower(t.idHex)
    requires "0x" + Lower(t.idHex) !in ix.byName.entries
    ensures Lookup(ix, input) == Some(t)
  {
    var s := Lower(Strip(input));
    var n :| HasId(t, n);
    IdForms(t, n);
    UpperLowerHex(t.idHex);
    assert s[2..] == Lower(t.idHex);
    assert IsHexLiteral(s);
  }

  /**
   * `ID_dec` finds the record filed under that decimal key, unless that string is
   * itself a terrain name.
   */
  lemma LookupByDec(ix: TerrainIndex, t: Terrain)
    requires WellFormed(t)
    requires t.idDec in ix.byDec && ix.byDec[t.idDec] == t
    requires t.idDec !in ix.byName.entries
    ensures Lookup(ix, t.idDec) == Some(t)
  {
    var n :| HasId(t, n);
    IdForms(t, n);
    DecSelectorForm(t.idDec);
  }

  /** The literal selectors `0x<ID_hex>` and `0X<ID_hex>` find the record. */
  lemma LookupByHexLiteral(ix: TerrainIndex, t: Terrain)
    requires WellFormed(t)
    requires t.idHex in ix.byHex && ix.byHex[t.idHex] == t
    requires "0x" + Lower(t.idHex) !in ix.byName.entries
    ensures Lookup(ix, "0x" + t.idHex) == Some(t)
    ensures Lookup(ix, "0X" + t.idHex) == Some(t)
  {
    var n :| HasId(t, n);
    IdForms(t, n);
    HexSelectorForms(t.idHex);
    LookupByHex(ix, t, "0x" + t.idHex);
    LookupByHex(ix, t, "0X" + t.idHex);
  }

  /** The records of the name index have pairwise distinct names. */
  lemma NamesDistinct(ix: TerrainIndex)
    requires IndexValid(ix)
    ensures var vs := ix.byName.Values();
            forall i, j :: 0 <= i < j < |vs| ==> vs[i].name != vs[j].name
  {
    var vs := ix.byName.Values();
    forall i, j | 0 <= i < j < |vs| ensures vs[i].name != vs[j].name {
      assert ix.byName.keys[i] in ix.byName.entries && ix.byName.keys[j] in ix.byName.entries;
      assert Lower(vs[i].name) == ix.byName.keys[i];
    }
  }

  /** Python's `TerrainParser`: its three dict fields. */
  class TerrainParser {
    var terrains: OrderedMap<Terrain>
    var terrainsByHex: map<string, Terrain>
    var terrainsByDec: map<string, Terrain>

    function Indices(): TerrainIndex
      reads this
    {
      TerrainIndex(terrains, terrainsByHex, terrainsByDec)
    }

    ghost predicate Valid()
      reads this
    {
      IndexValid(Indices())
    }

    /** Builds the registry from the root element of the terrain document. */
    constructor (root: Element)
      ensures Valid()
      ensures Indices() == AddEntries(EmptyIndex(), FindAll(root, "Terrain"))
    {
      terrains := EmptyMap();
      terrainsByHex := map[];
      terrainsByDec := map[];
      new;
      ParseTerrains(root);
    }

    /** `parse_terrains`: adds every `Terrain` child of `root`, in document order. */
    method ParseTerrains(root: Element)
      requires Valid()
      modifies this
      ensures Valid()
      ensures Indices() == AddEntries(old(Indices()), FindAll(root, "Terrain"))
    {
      var entries := FindAll(root, "Terrain");
      ghost var start := Indices();
      for i := 0 to |entries|
        invariant Indices() == AddEntries(start, entries[..i])
      {
        AddEntriesStep(start, entries, i);
        AddTerrain(entries[i]);
      }
      assert entries[..|entries|] == entries;
      AddEntriesValid(start, entries);
    }

    /** The body of the loop in `parse_terrains`: one `Terrain` element. */
    method AddTerrain(terrain: Element)
      modifies this
      ensures Indices() == AddEntry(old(Indices()), terrain)
    {
      var name := Attribute(terrain, "Name");
      var idString := Attribute(terrain, "ID");
      if name == "" || idString == "" {
        return;
      }
      match ParseInt(idString) {
        case None =>
        case Some(terrainId) =>
          var terrainIdHex := Hex2(terrainId);
          var terrainData := Terrain(name, ShowDec(terrainId), terrainIdHex);
          terrains := terrains.Put(Lower(name), terrainData);
          terrainsByHex := terrainsByHex[terrainIdHex := terrainData];
          terrainsByDec := terrainsByDec[ShowDec(terrainId) := terrainData];
      }
    }

    /** `get_terrain_by_str`; it reads the indices and changes nothing. */
    function GetTerrainByStr(input: string): (r: Option<Terrain>)
      reads this
      requires Valid()
      ensures r.Some? ==> WellFormed(r.value)
      ensures r.Some? ==>
                var s := Lower(Strip(input));
                || (s in terrains.entries && terrains.entries[s] == r.value)
                || (s !in terrains.entries && IsHexLiteral(s) && Upper(s[2..]) in terrainsByHex && terrainsByHex[Upper(s[2..])] == r.value)
                || (s !in terrains.entries && !IsHexLiteral(s) && AllDigits(s) && s in terrainsByDec && terrainsByDec[s] == r.value)
    {
      var r := Lookup(Indices(), input);
      if r.Some? then
        LookupSound(Indices(), input, r.value);
        r
      else r
    }
  }
}
