/**
 * The generator: resolves Terrain A and the Terrain B candidates, joins the input
 * transition records with the registered hashkey patterns, substitutes the two
 * terrains' hex ids into each pattern, and names the output file of each pair.
 */
module TransitionGeneration {

  import opened Wrappers
  import opened Text
  import opened OrderedMaps
  import opened Xml
  import opened TransInfos
  import opened TerrainParsing
  import opened TransitionTypeParsing
  import opened TransitionParsing

  /* ---------- hashkey placeholders ---------- */

  /** What one character of the uppercased pattern becomes. */
  function Placeholder(c: char, aHex: string, bHex: string): string {
    if c == 'A' then aHex else if c == 'B' then bHex else [c]
  }

  /** The pieces for an already uppercased pattern, joined in order. */
  function SubstituteUpper(u: string, aHex: string, bHex: string): (r: string)
    ensures |aHex| > 0 && |bHex| > 0 ==> |u| <= |r|
  {
    if u == [] then []
    else SubstituteUpper(u[..|u| - 1], aHex, bHex) + Placeholder(u[|u| - 1], aHex, bHex)
  }

  /** The hashkey a pattern resolves to: `A` and `B` of `hashkey.upper()` replaced. */
  function Substitute(hashkey: string, aHex: string, bHex: string): (r: string)
    ensures |aHex| > 0 && |bHex| > 0 ==> |hashkey| <= |r|
  {
    SubstituteUpper(Upper(hashkey), aHex, bHex)
  }

  /** `"".join(pieces)`. */
  function Join(pieces: seq<string>): string {
    if pieces == [] then [] else Join(pieces[..|pieces| - 1]) + pieces[|pieces| - 1]
  }

  lemma JoinAppend(pieces: seq<string>, piece: string)
    ensures Join(pieces + [piece]) == Join(pieces) + piece
  {
    assert (pieces + [piece])[..|pieces|] == pieces;
  }

  /** Substitution works character by character: it distributes over concatenation. */
  lemma {:induction false} SubstituteUpperConcat(x: string, y: string, aHex: string, bHex: string)
    ensures SubstituteUpper(x + y, aHex, bHex) == SubstituteUpper(x, aHex, bHex) + SubstituteUpper(y, aHex, bHex)
  {
    if y != [] {
      var y' := y[..|y| - 1];
      assert (x + y)[..|x + y| - 1] == x + y';
      SubstituteUpperConcat(x, y', aHex, bHex);
    } else {
      assert x + y == x;
    }
  }

  lemma SubstituteConcat(x: string, y: string, aHex: string, bHex: string)
    ensures Substitute(x + y, aHex, bHex) == Substitute(x, aHex, bHex) + Substitute(y, aHex, bHex)
  {
    CaseConcat(x, y);
    SubstituteUpperConcat(Upper(x), Upper(y), aHex, bHex);
  }

  /** A one-character pattern: lowercase `a`/`b` are placeholders just as `A`/`B` are. */
  lemma SubstituteChar(c: char, aHex: string, bHex: string)
    ensures Substitute([c], aHex, bHex) == Placeholder(UpperChar(c), aHex, bHex)
    ensures Substitute("a", aHex, bHex) == aHex && Substitute("b", aHex, bHex) == bHex
  {
    var u := [UpperChar(c)];
    assert Upper([c]) == u;
    assert u[..0] == [];
    assert SubstituteUpper(u, aHex, bHex) == SubstituteUpper([], aHex, bHex) + Placeholder(u[0], aHex, bHex);
    assert Upper("a") == "A" && Upper("b") == "B";
    assert "A"[..0] == [] && "B"[..0] == [];
  }

  /** The number of occurrences of `c` in `s`. */
  function Count(s: string, c: char): (n: nat)
    ensures n <= |s|
  {
    if s == [] then 0 else Count(s[..|s| - 1], c) + (if s[|s| - 1] == c then 1 else 0)
  }

  lemma MulStep(n: nat, k: int)
    ensures (n + 1) * k == n * k + k
  {
  }

  /** Each `A` grows into `aHex` and each `B` into `bHex`; every other character stays one. */
  lemma {:induction false} SubstituteUpperLength(u: string, aHex: string, bHex: string)
    ensures |SubstituteUpper(u, aHex, bHex)| == |u| + Count(u, 'A') * (|aHex| - 1) + Count(u, 'B') * (|bHex| - 1)
  {
    if u != [] {
      var u' := u[..|u| - 1];
      var c := u[|u| - 1];
      SubstituteUpperLength(u', aHex, bHex);
      var na, nb := Count(u', 'A'), Count(u', 'B');
      var ka, kb := |aHex| - 1, |bHex| - 1;
      var before := |SubstituteUpper(u', aHex, bHex)|;
      assert before == |u'| + na * ka + nb * kb;
      assert |SubstituteUpper(u, aHex, bHex)| == before + |Placeholder(c, aHex, bHex)|;
      if c == 'A' {
        MulStep(na, ka);
        assert Count(u, 'A') == na + 1 && Count(u, 'B') == nb;
      } else if c == 'B' {
        MulStep(nb, kb);
        assert Count(u, 'A') == na && Count(u, 'B') == nb + 1;
      } else {
        assert Count(u, 'A') == na && Count(u, 'B') == nb;
      }
    }
  }

  /** With two-character hex ids, each placeholder adds one character. */
  lemma SubstituteLength(hashkey: string, aHex: string, bHex: string)
    requires |aHex| == 2 && |bHex| == 2
    ensures |Substitute(hashkey, aHex, bHex)| == |hashkey| + Count(Upper(hashkey), 'A') + Count(Upper(hashkey), 'B')
  {
    SubstituteUpperLength(Upper(hashkey), aHex, bHex);
  }

  lemma {:induction false} NoPlaceholdersUpper(u: string, aHex: string, bHex: string)
    requires forall k :: 0 <= k < |u| ==> u[k] != 'A' && u[k] != 'B'
    ensures SubstituteUpper(u, aHex, bHex) == u
  {
    if u != [] {
      NoPlaceholdersUpper(u[..|u| - 1], aHex, bHex);
      assert u == u[..|u| - 1] + [u[|u| - 1]];
    }
  }

  /** A pattern without `A`/`B` (in either case) comes back as its uppercase form. */
  lemma NoPlaceholders(hashkey: string, aHex: string, bHex: string)
    requires forall k :: 0 <= k < |hashkey| ==> UpperChar(hashkey[k]) != 'A' && UpperChar(hashkey[k]) != 'B'
    ensures Substitute(hashkey, aHex, bHex) == Upper(hashkey)
  {
    NoPlaceholdersUpper(Upper(hashkey), aHex, bHex);
  }

  lemma {:induction false} SubstituteUpperHex(u: string, aHex: string, bHex: string)
    requires forall k :: 0 <= k < |u| ==> IsHexDigit(u[k])
    requires ValidateHashkey(aHex) && ValidateHashkey(bHex)
    ensures u != [] ==> ValidateHashkey(SubstituteUpper(u, aHex, bHex))
    ensures u == [] ==> SubstituteUpper(u, aHex, bHex) == []
  {
    if u != [] {
      var u' := u[..|u| - 1];
      SubstituteUpperHex(u', aHex, bHex);
      var p := Placeholder(u[|u| - 1], aHex, bHex);
      assert ValidateHashkey(p);
      if u' != [] {
        ValidateConcat(SubstituteUpper(u', aHex, bHex), p);
      } else {
        assert SubstituteUpper(u, aHex, bHex) == p;
      }
    }
  }

  /** A valid pattern resolved with valid hex ids is a valid hashkey. */
  lemma SubstituteValid(hashkey: string, aHex: string, bHex: string)
    requires ValidateHashkey(hashkey) && ValidateHashkey(aHex) && ValidateHashkey(bHex)
    ensures ValidateHashkey(Substitute(hashkey, aHex, bHex))
  {
    UpperHashkey(hashkey);
    SubstituteUpperHex(Upper(hashkey), aHex, bHex);
  }

  lemma SubstituteExamples()
    ensures Substitute("AB12", "1F", "2E") == "1F2E12"
    ensures Substitute("ab", "1F", "2E") == "1F2E"
    ensures Substitute("A0C", "1F", "2E") == "1F0C"
  {
    assert Upper("AB12") == "AB12";
    assert SubstituteUpper("AB12", "1F", "2E") == "1F2E12" by {
      assert "AB12"[..3] == "AB1" && "AB1"[..2] == "AB" && "AB"[..1] == "A" && "A"[..0] == [];
    }
    assert Upper("ab") == "AB";
    assert SubstituteUpper("AB", "1F", "2E") == "1F2E" by {
      assert "AB"[..1] == "A" && "A"[..0] == [];
    }
    assert Upper("A0C") == "A0C";
    assert SubstituteUpper("A0C", "1F", "2E") == "1F0C" by {
      assert "A0C"[..2] == "A0" && "A0"[..1] == "A" && "A"[..0] == [];
    }
  }

  /* ---------- the join of records with registered patterns ---------- */

  /** The resolved record for one parsed transition and one of its patterns. */
  function Produced(entry: TransInfo, hashkey: string, aHex: string, bHex: string): TransInfo {
    TransInfo(entry.description, Substitute(hashkey, aHex, bHex), entry.maptiles, entry.statictiles)
  }

  /** The innermost loop: one resolved record per pattern, in the pattern list's order. */
  function ForHashkeys(entry: TransInfo, hashkeys: seq<string>, aHex: string, bHex: string): (r: seq<TransInfo>)
    ensures |r| == |hashkeys|
  {
    if hashkeys == [] then []
    else
      ForHashkeys(entry, hashkeys[..|hashkeys| - 1], aHex, bHex)
      + [Produced(entry, hashkeys[|hashkeys| - 1], aHex, bHex)]
  }

  /** The `j`-th resolved record comes from the `j`-th pattern. */
  lemma {:induction false} ForHashkeysIndex(entry: TransInfo, hashkeys: seq<string>, aHex: string, bHex: string)
    ensures forall j :: 0 <= j < |hashkeys| ==>
              ForHashkeys(entry, hashkeys, aHex, bHex)[j] == Produced(entry, hashkeys[j], aHex, bHex)
  {
    if hashkeys != [] {
      var prefix := hashkeys[..|hashkeys| - 1];
      ForHashkeysIndex(entry, prefix, aHex, bHex);
      var out := ForHashkeys(entry, hashkeys, aHex, bHex);
      forall j | 0 <= j < |hashkeys| ensures out[j] == Produced(entry, hashkeys[j], aHex, bHex) {
        if j < |prefix| {
          assert out[j] == ForHashkeys(entry, prefix, aHex, bHex)[j];
          assert hashkeys[j] == prefix[j];
        }
      }
    }
  }

  /** The middle loop: the registered names in order, the ones equal to the description matching. */
  function ForTypes(entry: TransInfo, names: seq<string>, reg: Registry, aHex: string, bHex: string): (r: seq<TransInfo>)
    ensures entry.description !in names ==> r == []
  {
    if names == [] then []
    else
      var name := names[|names| - 1];
      assert forall x :: x in names[..|names| - 1] ==> x in names;
      ForTypes(entry, names[..|names| - 1], reg, aHex, bHex)
      + (if entry.description == name then ForHashkeys(entry, HashkeysFor(reg, name), aHex, bHex) else [])
  }

  /** The outer loop: the resolved records of every parsed transition, in order. */
  function JoinRecords(entries: seq<TransInfo>, reg: Registry, aHex: string, bHex: string): seq<TransInfo> {
    if entries == [] then []
    else
      JoinRecords(entries[..|entries| - 1], reg, aHex, bHex)
      + ForTypes(entries[|entries| - 1], reg.keys, reg, aHex, bHex)
  }

  /** One more record of the outer loop appends that record's resolved records. */
  lemma JoinRecordsStep(entries: seq<TransInfo>, i: nat, reg: Registry, aHex: string, bHex: string)
    requires i < |entries|
    ensures JoinRecords(entries[..i + 1], reg, aHex, bHex)
            == JoinRecords(entries[..i], reg, aHex, bHex) + ForTypes(entries[i], reg.keys, reg, aHex, bHex)
  {
    assert entries[..i + 1][..i] == entries[..i];
  }

  /** One more name of the middle loop appends that name's records when it matches. */
  lemma ForTypesStep(entry: TransInfo, names: seq<string>, t: nat, reg: Registry, aHex: string, bHex: string)
    requires t < |names|
    ensures ForTypes(entry, names[..t + 1], reg, aHex, bHex)
            == ForTypes(entry, names[..t], reg, aHex, bHex)
               + (if entry.description == names[t] then ForHashkeys(entry, HashkeysFor(reg, names[t]), aHex, bHex) else [])
  {
    assert names[..t + 1][..t] == names[..t];
  }

  /** When no transition's description is a registered type, the join is empty. */
  lemma {:induction false} JoinUnregistered(entries: seq<TransInfo>, reg: Registry, aHex: string, bHex: string)
    requires forall k :: 0 <= k < |entries| ==> entries[k].description !in reg.keys
    ensures JoinRecords(entries, reg, aHex, bHex) == []
  {
    if entries != [] {
      var prefix := entries[..|entries| - 1];
      assert forall k :: 0 <= k < |prefix| ==> prefix[k] == entries[k];
      JoinUnregistered(prefix, reg, aHex, bHex);
    }
  }

  /** The last of distinct names does not occur before it. */
  lemma LastNotInPrefix(names: seq<string>)
    requires names != []
    requires forall i, j :: 0 <= i < j < |names| ==> names[i] != names[j]
    ensures names[|names| - 1] !in names[..|names| - 1]
  {
    var prefix := names[..|names| - 1];
    forall i | 0 <= i < |prefix| ensures prefix[i] != names[|names| - 1] {
      assert prefix[i] == names[i];
    }
  }

  /** Over distinct names the middle loop matches at most once. */
  lemma {:induction false} ForTypesMatch(entry: TransInfo, names: seq<string>, reg: Registry, aHex: string, bHex: string)
    requires forall i, j :: 0 <= i < j < |names| ==> names[i] != names[j]
    ensures ForTypes(entry, names, reg, aHex, bHex) ==
              if entry.description in names then ForHashkeys(entry, HashkeysFor(reg, entry.description), aHex, bHex)
              else []
  {
    if entry.description in names {
      var prefix := names[..|names| - 1];
      var last := names[|names| - 1];
      var matched := ForHashkeys(entry, HashkeysFor(reg, entry.description), aHex, bHex);
      if entry.description == last {
        LastNotInPrefix(names);
        assert ForTypes(entry, names, reg, aHex, bHex) == [] + matched;
      } else {
        assert entry.description in prefix by {
          var k :| 0 <= k < |names| && names[k] == entry.description;
          assert k < |prefix| && prefix[k] == names[k];
        }
        assert forall i, j :: 0 <= i < j < |prefix| ==> prefix[i] != prefix[j] by {
          assert forall i :: 0 <= i < |prefix| ==> prefix[i] == names[i];
        }
        ForTypesMatch(entry, prefix, reg, aHex, bHex);
        assert ForTypes(entry, names, reg, aHex, bHex) == ForTypes(entry, prefix, reg, aHex, bHex) + [];
      }
    }
  }

  /**
   * One parsed transition yields exactly its type's resolved patterns, in pattern order,
   * and nothing when its description is not registered.
   */
  lemma ForRegistered(entry: TransInfo, reg: Registry, aHex: string, bHex: string)
    requires reg.Valid()
    ensures ForTypes(entry, reg.keys, reg, aHex, bHex) ==
              ForHashkeys(entry, HashkeysFor(reg, entry.description), aHex, bHex)
    ensures entry.description !in reg.entries ==> ForTypes(entry, reg.keys, reg, aHex, bHex) == []
  {
    ForTypesMatch(entry, reg.keys, reg, aHex, bHex);
  }

  /** The join of a single record. */
  lemma JoinSingle(entry: TransInfo, reg: Registry, aHex: string, bHex: string)
    requires reg.Valid()
    ensures JoinRecords([entry], reg, aHex, bHex) == ForHashkeys(entry, HashkeysFor(reg, entry.description), aHex, bHex)
  {
    assert [entry][..0] == [];
    ForRegistered(entry, reg, aHex, bHex);
  }

  /** The join works record by record: it distributes over concatenation, keeping order. */
  lemma {:induction false} JoinConcat(x: seq<TransInfo>, y: seq<TransInfo>, reg: Registry, aHex: string, bHex: string)
    ensures JoinRecords(x + y, reg, aHex, bHex) == JoinRecords(x, reg, aHex, bHex) + JoinRecords(y, reg, aHex, bHex)
  {
    if y != [] {
      var y' := y[..|y| - 1];
      assert (x + y)[..|x + y| - 1] == x + y';
      JoinConcat(x, y', reg, aHex, bHex);
    } else {
      assert x + y == x;
    }
  }

  /** The number of patterns registered for the descriptions of the records. */
  function PairCount(entries: seq<TransInfo>, reg: Registry): nat {
    if entries == [] then 0
    else PairCount(entries[..|entries| - 1], reg) + |HashkeysFor(reg, entries[|entries| - 1].description)|
  }

  /** The join has one record per (record, registered pattern of its description) pair. */
  lemma {:induction false} JoinLength(entries: seq<TransInfo>, reg: Registry, aHex: string, bHex: string)
    requires reg.Valid()
    ensures |JoinRecords(entries, reg, aHex, bHex)| == PairCount(entries, reg)
  {
    if entries != [] {
      JoinLength(entries[..|entries| - 1], reg, aHex, bHex);
      ForRegistered(entries[|entries| - 1], reg, aHex, bHex);
    }
  }

  /** The records resolved for one parsed transition are its patterns' records. */
  lemma ForHashkeysMembers(entry: TransInfo, hashkeys: seq<string>, aHex: string, bHex: string, r: TransInfo)
    ensures r in ForHashkeys(entry, hashkeys, aHex, bHex) <==>
              exists h :: h in hashkeys && r == Produced(entry, h, aHex, bHex)
  {
    var out := ForHashkeys(entry, hashkeys, aHex, bHex);
    ForHashkeysIndex(entry, hashkeys, aHex, bHex);
    if r in out {
      var j :| 0 <= j < |out| && out[j] == r;
      assert hashkeys[j] in hashkeys;
    }
    if exists h :: h in hashkeys && r == Produced(entry, h, aHex, bHex) {
      var h :| h in hashkeys && r == Produced(entry, h, aHex, bHex);
      var j :| 0 <= j < |hashkeys| && hashkeys[j] == h;
      assert out[j] == r;
    }
  }

  /** Some record of `entries` resolves to `r` with a pattern of its description. */
  ghost predicate ResolvesTo(entries: seq<TransInfo>, reg: Registry, aHex: string, bHex: string, r: TransInfo) {
    exists e :: e in entries && ResolvesFrom(e, reg, aHex, bHex, r)
  }

  /** `r` is `e` resolved with one of the patterns of `e`'s description. */
  ghost predicate ResolvesFrom(e: TransInfo, reg: Registry, aHex: string, bHex: string, r: TransInfo) {
    exists h :: h in HashkeysFor(reg, e.description) && r == Produced(e, h, aHex, bHex)
  }

  /** The outer loop's last record contributes exactly its registered patterns' records. */
  lemma JoinLast(entries: seq<TransInfo>, reg: Registry, aHex: string, bHex: string)
    requires reg.Valid() && entries != []
    ensures var last := entries[|entries| - 1];
            JoinRecords(entries, reg, aHex, bHex) ==
              JoinRecords(entries[..|entries| - 1], reg, aHex, bHex)
              + ForHashkeys(last, HashkeysFor(reg, last.description), aHex, bHex)
  {
    ForRegistered(entries[|entries| - 1], reg, aHex, bHex);
  }

  /** A record resolves from `entries` when it resolves from the earlier ones or from the last. */
  lemma ResolvesToLast(entries: seq<TransInfo>, reg: Registry, aHex: string, bHex: string, r: TransInfo)
    requires entries != []
    ensures ResolvesTo(entries, reg, aHex, bHex, r) <==>
              || ResolvesTo(entries[..|entries| - 1], reg, aHex, bHex, r)
              || ResolvesFrom(entries[|entries| - 1], reg, aHex, bHex, r)
  {
    var prefix := entries[..|entries| - 1];
    var last := entries[|entries| - 1];
    if ResolvesFrom(last, reg, aHex, bHex, r) {
      assert last in entries;
    }
    if ResolvesTo(prefix, reg, aHex, bHex, r) {
      var e :| e in prefix && ResolvesFrom(e, reg, aHex, bHex, r);
      assert e in entries;
    }
    if ResolvesTo(entries, reg, aHex, bHex, r) {
      var e :| e in entries && ResolvesFrom(e, reg, aHex, bHex, r);
      if e != last {
        var i :| 0 <= i < |entries| && entries[i] == e;
        assert prefix[i] == e;
      }
    }
  }

  /**
   * A record is in the join exactly when it resolves some parsed transition with one of
   * the patterns registered for that record's description.
   */
  lemma {:induction false} JoinMembers(entries: seq<TransInfo>, reg: Registry, aHex: string, bHex: string, r: TransInfo)
    requires reg.Valid()
    ensures r in JoinRecords(entries, reg, aHex, bHex) <==> ResolvesTo(entries, reg, aHex, bHex, r)
  {
    if entries != [] {
      var prefix := entries[..|entries| - 1];
      var last := entries[|entries| - 1];
      JoinMembers(prefix, reg, aHex, bHex, r);
      JoinLast(entries, reg, aHex, bHex);
      ForHashkeysMembers(last, HashkeysFor(reg, last.description), aHex, bHex, r);
      ResolvesToLast(entries, reg, aHex, bHex, r);
    }
  }

  /**
   * With a valid registry and valid hex ids, every resolved record keeps the description
   * of a parsed transition and carries a valid hashkey.
   */
  lemma JoinHashkeysValid(entries: seq<TransInfo>, reg: Registry, aHex: string, bHex: string, r: TransInfo)
    requires RegistryValid(reg) && ValidateHashkey(aHex) && ValidateHashkey(bHex)
    requires r in JoinRecords(entries, reg, aHex, bHex)
    ensures ValidateHashkey(r.hashkey)
    ensures exists e :: e in entries && e.description == r.description
                       && e.maptiles == r.maptiles && e.statictiles == r.statictiles
  {
    JoinMembers(entries, reg, aHex, bHex, r);
    var e :| e in entries && ResolvesFrom(e, reg, aHex, bHex, r);
    var h :| h in HashkeysFor(reg, e.description) && r == Produced(e, h, aHex, bHex);
    SubstituteValid(h, aHex, bHex);
  }

  lemma ExamplePatterns()
    ensures Substitute("AB", "10", "20") == "1020" && Substitute("BA", "10", "20") == "2010"
  {
    assert Upper("AB") == "AB" && "AB"[..1] == "A" && "A"[..0] == [];
    assert Upper("BA") == "BA" && "BA"[..1] == "B" && "B"[..0] == [];
  }

  /** Two occurrences of a type with patterns `AB`, `BA`, resolved with `10` and `20`. */
  lemma JoinExample()
    ensures var entry := TransInfo("Dirt2Grass", "", [], []);
            var reg := OrderedMap(["Dirt2Grass"], map["Dirt2Grass" := ["AB", "BA"]]);
            var out := JoinRecords([entry, entry], reg, "10", "20");
            |out| == 4
            && out[0].hashkey == "1020" && out[1].hashkey == "2010"
            && out[2].hashkey == "1020" && out[3].hashkey == "2010"
  {
    var entry := TransInfo("Dirt2Grass", "", [], []);
    var reg := OrderedMap(["Dirt2Grass"], map["Dirt2Grass" := ["AB", "BA"]]);
    var patterns := ["AB", "BA"];
    ExamplePatterns();
    var one := JoinRecords([entry], reg, "10", "20");
    assert one == ForHashkeys(entry, patterns, "10", "20") by {
      assert reg.Valid();
      assert HashkeysFor(reg, entry.description) == patterns;
      JoinSingle(entry, reg, "10", "20");
    }
    ForHashkeysIndex(entry, patterns, "10", "20");
    assert |one| == 2 && one[0].hashkey == "1020" && one[1].hashkey == "2010";
    JoinConcat([entry], [entry], reg, "10", "20");
    assert [entry] + [entry] == [entry, entry];
  }

  /* ---------- Terrain A and the Terrain B candidates ---------- */

  /** Why generation stops before any pair is produced. */
  datatype GenError = InvalidTerrainA | InvalidTerrainB | NoTerrainB

  /** The command-line choices the generator reads: Terrain A, and Terrain B if given. */
  datatype Args = Args(terrainA: string, terrainB: Option<string>)

  /** `if self.args.terrain_b`: a Terrain B is requested when one is given and it is not empty. */
  predicate RequestsTerrainB(args: Args) {
    args.terrainB.Some? && args.terrainB.value != ""
  }

  /** The list comprehension over the name index: the terrains not named like `a`, in order. */
  function OtherTerrains(terrains: seq<Terrain>, a: Terrain): (r: seq<Terrain>)
    ensures |r| <= |terrains|
    ensures forall t :: t in r <==> t in terrains && t.name != a.name
  {
    if terrains == [] then []
    else
      var last := terrains[|terrains| - 1];
      OtherTerrains(terrains[..|terrains| - 1], a) + (if last.name != a.name then [last] else [])
  }

  /** Filtering keeps relative order: it distributes over concatenation. */
  lemma {:induction false} OtherTerrainsConcat(x: seq<Terrain>, y: seq<Terrain>, a: Terrain)
    ensures OtherTerrains(x + y, a) == OtherTerrains(x, a) + OtherTerrains(y, a)
  {
    if y != [] {
      var y' := y[..|y| - 1];
      assert (x + y)[..|x + y| - 1] == x + y';
      OtherTerrainsConcat(x, y', a);
    } else {
      assert x + y == x;
    }
  }

  /** Among terrains with distinct names, at most the one named like `a` is dropped. */
  lemma {:induction false} OtherTerrainsCount(terrains: seq<Terrain>, a: Terrain)
    requires forall i, j :: 0 <= i < j < |terrains| ==> terrains[i].name != terrains[j].name
    ensures |OtherTerrains(terrains, a)| ==
              |terrains| - (if exists i :: 0 <= i < |terrains| && terrains[i].name == a.name then 1 else 0)
  {
    if terrains != [] {
      var prefix := terrains[..|terrains| - 1];
      var last := terrains[|terrains| - 1];
      OtherTerrainsCount(prefix, a);
      var inPrefix := exists i :: 0 <= i < |prefix| && prefix[i].name == a.name;
      if inPrefix {
        var i :| 0 <= i < |prefix| && prefix[i].name == a.name;
        assert terrains[i] == prefix[i];
        assert last.name != a.name;
      } else if exists i :: 0 <= i < |terrains| && terrains[i].name == a.name {
        var i :| 0 <= i < |terrains| && terrains[i].name == a.name;
        if i < |prefix| {
          assert prefix[i] == terrains[i];
        }
      } else {
        assert last.name != a.name;
      }
    }
  }

  /**
   * The Terrain Bs to generate for, once Terrain A is `a`: the requested one, when
   * it resolves; otherwise every terrain of the name index not named like `a`.
   */
  function SelectTerrainsB(ix: TerrainIndex, a: Terrain, args: Args): (r: Result<seq<Terrain>, GenError>)
    requires ix.byName.Valid()
    ensures r.Ok? ==> r.value != []
    ensures r.Ok? && RequestsTerrainB(args) ==> |r.value| == 1
    ensures r.Err? ==> r.error != InvalidTerrainA && (r.error == InvalidTerrainB <==> RequestsTerrainB(args))
  {
    if RequestsTerrainB(args) then
      match Lookup(ix, args.terrainB.value)
      case None => Err(InvalidTerrainB)
      case Some(b) => Ok([b])
    else
      var others := OtherTerrains(ix.byName.Values(), a);
      if others == [] then Err(NoTerrainB) else Ok(others)
  }

  /**
   * A requested Terrain B gives exactly the one-element list of what it resolves to, or
   * the error for an invalid Terrain B; it is not compared with Terrain A.
   */
  lemma SelectRequested(ix: TerrainIndex, a: Terrain, args: Args)
    requires ix.byName.Valid()
    requires RequestsTerrainB(args)
    ensures var r := SelectTerrainsB(ix, a, args);
            var b := Lookup(ix, args.terrainB.value);
            && (r.Ok? <==> b.Some?)
            && (b.Some? ==> r == Ok([b.value]))
            && (b.None? ==> r == Err(InvalidTerrainB))
  {
  }

  /**
   * Without a requested Terrain B: the candidates are exactly the indexed terrains not
   * named like Terrain A, all well-formed, their number is the index size less the one
   * so named (if any), and the error is raised exactly when none is left.
   */
  lemma SelectAll(ix: TerrainIndex, a: Terrain, args: Args)
    requires IndexValid(ix)
    requires !RequestsTerrainB(args)
    ensures var r := SelectTerrainsB(ix, a, args);
            var vs := ix.byName.Values();
            && (r.Err? <==> forall t :: t in vs ==> t.name == a.name)
            && (r.Err? ==> r.error == NoTerrainB)
            && (r.Ok? ==> r.value == OtherTerrains(vs, a))
            && (r.Ok? ==> forall t :: t in r.value <==> t in vs && t.name != a.name)
            && (r.Ok? ==> forall t :: t in r.value ==> WellFormed(t))
            && (r.Ok? ==> |r.value| == |vs| - (if exists i :: 0 <= i < |vs| && vs[i].name == a.name then 1 else 0))
  {
    var vs := ix.byName.Values();
    NamesDistinct(ix);
    OtherTerrainsCount(vs, a);
    forall t | t in vs ensures WellFormed(t) {
      ValuesAreEntries(ix.byName, t);
    }
  }

  /* ---------- output file names ---------- */

  /** A string built from decimal ids, literal separators and space-free names has no space. */
  lemma NoSpaceConcat(x: string, y: string)
    requires forall k :: 0 <= k < |x| ==> x[k] != ' '
    requires forall k :: 0 <= k < |y| ==> y[k] != ' '
    ensures forall k :: 0 <= k < |x + y| ==> (x + y)[k] != ' '
  {
    forall k | 0 <= k < |x + y| ensures (x + y)[k] != ' ' {
      if k >= |x| {
        assert (x + y)[k] == y[k - |x|];
      }
    }
  }

  lemma NoSpaceReplaced(s: string)
    ensures forall k :: 0 <= k < |ReplaceSpaces(s)| ==> ReplaceSpaces(s)[k] != ' '
  {
  }

  lemma NoSpaceDigits(s: string)
    requires AllDigits(s)
    ensures forall k :: 0 <= k < |s| ==> s[k] != ' '
  {
  }

  /* ---------- the generator ---------- */

  /** Python's `TransitionGenerator`: its arguments, its three parsers, and Terrain A once resolved. */
  class TransitionGenerator {
    const args: Args
    const terrainParser: TerrainParser
    const transitionTypeParser: TransitionTypeParser
    const transitionParser: TransitionParser
    var terrainA: Option<Terrain>

    ghost predicate Valid()
      reads this, terrainParser, transitionTypeParser, transitionParser
    {
      && terrainParser.Valid()
      && transitionTypeParser.Valid()
      && transitionParser.Valid()
      && (terrainA.Some? ==> WellFormed(terrainA.value))
    }

    /**
     * Reads the three documents (given here by their parsed roots); Terrain A is not
     * resolved yet.
     */
    constructor (args: Args, terrainRoot: Element, transitionTypesRoot: Element, transitionsRoot: Element)
      ensures Valid()
      ensures this.args == args && terrainA.None?
      ensures terrainParser.Indices() == AddEntries(EmptyIndex(), FindAll(terrainRoot, "Terrain"))
      ensures transitionTypeParser.transitionTypes == RegisterAll(EmptyMap(), FindAll(transitionTypesRoot, "TransitionType"))
      ensures transitionParser.transitionEntries == RecordsOf(FindAll(transitionsRoot, "TransitionType"))
    {
      this.args := args;
      terrainParser := new TerrainParser(terrainRoot);
      transitionTypeParser := new TransitionTypeParser(transitionTypesRoot);
      transitionParser := new TransitionParser(transitionsRoot);
      terrainA := None;
    }

    /** `replace_hashkey_placeholders`: the pieces for each character of `hashkey.upper()`, joined. */
    method ReplaceHashkeyPlaceholders(hashkey: string, terrainAHex: string, terrainBHex: string) returns (r: string)
      ensures r == Substitute(hashkey, terrainAHex, terrainBHex)
    {
      var upper := Upper(hashkey);
      var result: seq<string> := [];
      for k := 0 to |upper|
        invariant Join(result) == SubstituteUpper(upper[..k], terrainAHex, terrainBHex)
      {
        assert upper[..k + 1][..k] == upper[..k];
        var piece: string;
        if upper[k] == 'A' {
          piece := terrainAHex;
        } else if upper[k] == 'B' {
          piece := terrainBHex;
        } else {
          piece := [upper[k]];
        }
        JoinAppend(result, piece);
        result := result + [piece];
      }
      assert upper[..|upper|] == upper;
      r := Join(result);
    }

    /**
     * `generate_trans_infos_for_pair`: for each record, each registered name equal to
     * its description, and each of that name's patterns, the resolved record.
     */
    method GenerateTransInfosForPair(terrainB: Terrain) returns (pair: seq<TransInfo>)
      requires Valid() && terrainA.Some?
      ensures pair == JoinRecords(transitionParser.transitionEntries, transitionTypeParser.transitionTypes,
                                  terrainA.value.idHex, terrainB.idHex)
    {
      var transitions := transitionParser.GetTransitions();
      var reg := transitionTypeParser.transitionTypes;
      var aHex, bHex := terrainA.value.idHex, terrainB.idHex;
      pair := [];
      for i := 0 to |transitions|
        invariant pair == JoinRecords(transitions[..i], reg, aHex, bHex)
      {
        JoinRecordsStep(transitions, i, reg, aHex, bHex);
        var entry := transitions[i];
        var forEntry := ForTypesLoop(entry, bHex);
        pair := pair + forEntry;
      }
      assert transitions[..|transitions|] == transitions;
    }

    /** The middle and inner loops of `generate_trans_infos_for_pair`, for one record. */
    method ForTypesLoop(entry: TransInfo, bHex: string) returns (out: seq<TransInfo>)
      requires Valid() && terrainA.Some?
      ensures out == ForTypes(entry, transitionTypeParser.transitionTypes.keys,
                              transitionTypeParser.transitionTypes, terrainA.value.idHex, bHex)
    {
      var reg := transitionTypeParser.transitionTypes;
      var names := transitionTypeParser.GetTransitionTypes();
      out := [];
      for t := 0 to |names|
        invariant out == ForTypes(entry, names[..t], reg, terrainA.value.idHex, bHex)
      {
        ForTypesStep(entry, names, t, reg, terrainA.value.idHex, bHex);
        if entry.description == names[t] {
          var hashkeys := transitionTypeParser.GetHashkeysByTransitionType(names[t]);
          var resolved := ForHashkeysLoop(entry, hashkeys, terrainA.value.idHex, bHex);
          out := out + resolved;
        }
      }
      assert names[..|names|] == names;
    }

    /** The innermost loop of `generate_trans_infos_for_pair`: one resolved record per pattern. */
    method ForHashkeysLoop(entry: TransInfo, hashkeys: seq<string>, aHex: string, bHex: string)
      returns (out: seq<TransInfo>)
      ensures out == ForHashkeys(entry, hashkeys, aHex, bHex)
    {
      out := [];
      for h := 0 to |hashkeys|
        invariant out == ForHashkeys(entry, hashkeys[..h], aHex, bHex)
      {
        assert hashkeys[..h + 1][..h] == hashkeys[..h];
        var finalHashkey := ReplaceHashkeyPlaceholders(hashkeys[h], aHex, bHex);
        out := out + [TransInfo(entry.description, finalHashkey, entry.maptiles, entry.statictiles)];
      }
      assert hashkeys[..|hashkeys|] == hashkeys;
    }

    /**
     * `generate_trans_infos`: resolves Terrain A (stopping with an error when it does
     * not resolve), records it, then selects the Terrain Bs.
     */
    method GenerateTransInfos() returns (r: Result<seq<Terrain>, GenError>)
      requires Valid()
      modifies this
      ensures Valid()
      ensures var found := Lookup(terrainParser.Indices(), args.terrainA);
              && (found.None? ==> r == Err(InvalidTerrainA) && terrainA == old(terrainA))
              && (found.Some? ==> terrainA == found && r == SelectTerrainsB(terrainParser.Indices(), found.value, args))
    {
      var a := terrainParser.GetTerrainByStr(args.terrainA);
      if a.None? {
        return Err(InvalidTerrainA);
      }
      terrainA := a;
      if args.terrainB.Some? && args.terrainB.value != "" {
        var b := terrainParser.GetTerrainByStr(args.terrainB.value);
        if b.None? {
          return Err(InvalidTerrainB);
        }
        return Ok([b.value]);
      } else {
        var allTerrains := terrainParser.terrains.Values();
        var terrainsB := OtherTerrains(allTerrains, a.value);
        if terrainsB == [] {
          return Err(NoTerrainB);
        }
        return Ok(terrainsB);
      }
    }

    /**
     * `generate_output_filenames`: `ID_dec(A)`, `-`, Terrain A's name with `_` for each
     * space, `_To_`, the same two parts for `terrainB`, then `.xml`.
     */
    function GenerateOutputFilenames(terrainB: Terrain): (name: string)
      reads this
      requires terrainA.Some?
      ensures var a := terrainA.value;
              var i := |a.idDec| + 1 + |a.name|;
              var j := i + 4 + |terrainB.idDec| + 1 + |terrainB.name|;
              && |name| == |a.idDec| + |a.name| + |terrainB.idDec| + |terrainB.name| + 10
              && name[..|a.idDec|] == a.idDec && name[|a.idDec|] == '-'
              && name[|a.idDec| + 1..i] == ReplaceSpaces(a.name)
              && name[i..i + 4] == "_To_"
              && name[i + 4..i + 4 + |terrainB.idDec|] == terrainB.idDec && name[i + 4 + |terrainB.idDec|] == '-'
              && name[i + 4 + |terrainB.idDec| + 1..j] == ReplaceSpaces(terrainB.name)
              && name[j..] == ".xml"
    {
      var a := terrainA.value;
      a.idDec + "-" + ReplaceSpaces(a.name) + "_To_" + terrainB.idDec + "-" + ReplaceSpaces(terrainB.name) + ".xml"
    }
  }

  /** With decimal ids (as every parsed terrain has), the file name contains no space. */
  lemma FileNameNoSpaces(g: TransitionGenerator, b: Terrain)
    requires g.terrainA.Some? && AllDigits(g.terrainA.value.idDec) && AllDigits(b.idDec)
    ensures forall k :: 0 <= k < |g.GenerateOutputFilenames(b)| ==> g.GenerateOutputFilenames(b)[k] != ' '
  {
    var a := g.terrainA.value;
    NoSpaceDigits(a.idDec);
    NoSpaceDigits(b.idDec);
    NoSpaceReplaced(a.name);
    NoSpaceReplaced(b.name);
    NoSpaceConcat(a.idDec, "-");
    NoSpaceConcat(a.idDec + "-", ReplaceSpaces(a.name));
    NoSpaceConcat(a.idDec + "-" + ReplaceSpaces(a.name), "_To_");
    NoSpaceConcat(a.idDec + "-" + ReplaceSpaces(a.name) + "_To_", b.idDec);
    NoSpaceConcat(a.idDec + "-" + ReplaceSpaces(a.name) + "_To_" + b.idDec, "-");
    NoSpaceConcat(a.idDec + "-" + ReplaceSpaces(a.name) + "_To_" + b.idDec + "-", ReplaceSpaces(b.name));
    NoSpaceConcat(a.idDec + "-" + ReplaceSpaces(a.name) + "_To_" + b.idDec + "-" + ReplaceSpaces(b.name), ".xml");
  }

  lemma FileNameExample(g: TransitionGenerator)
    requires g.terrainA == Some(Terrain("Sand Dune", "22", "16"))
    ensures g.GenerateOutputFilenames(Terrain("Grass", "3", "03")) == "22-Sand_Dune_To_3-Grass.xml"
  {
    ReplaceSpacesExample();
    assert "22" + "-" + "Sand_Dune" + "_To_" + "3" + "-" + "Grass" + ".xml" == "22-Sand_Dune_To_3-Grass.xml";
  }
}
