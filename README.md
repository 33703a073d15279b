# uol-transgen core in Dafny

This project models the core of `uol-transgen`, a generator of Ultima Online
terrain-transition definitions. The generator reads three XML documents:

- a terrain table, where each `Terrain` has a `Name` and a decimal `ID`;
- a transition-type table, where each `TransitionType` has a `name` and a list
  of `HashKey` patterns. A pattern is a hex string in which the letters `A` and
  `B` stand for the ids of the two terrains;
- a transitions document, where each `TransitionType` has a `Description` and
  its `MapTiles` and `StaticTiles`.

Given terrain A, and optionally terrain B, the generator finds every
transition whose description names a registered transition type. For each
pattern of that type it substitutes the hex ids of A and B, which are zero-padded
to at least two digits. It then
names the output file `<A dec>-<A name>_To_<B dec>-<B name>.xml`.

The model is split into modules that follow the program:

- `TerrainParsing` (`terrain_parser.dfy`) is the terrain table. The class
  `TerrainParser` keeps the three dictionaries the program keeps: by lower-case
  name, by upper-case hex id zero-padded to at least two digits, and by decimal id. Its loop is proved
  against the pure fold `AddEntries`. `Lookup` models `get_terrain_by_str`.
- `TransitionTypeParsing` (`transition_type_parser.dfy`) is the registry of
  transition types. The class `TransitionTypeParser` fills an insertion-ordered
  dictionary from the elements, proved against `RegisterAll`.
- `TransitionParsing` (`transition_parser.dfy`) is the list of transitions.
  The class `TransitionParser` appends one record per described element, and
  normalises `0x…` tile ids to decimal. Its loops are proved against
  `RecordsOf` and `TilesOf`.
- `TransInfos` (`trans_info.dfy`) holds the `TransInfo` record of
  `transition_generator/trans_info.py` (lines 4-9). Each tile dictionary
  becomes a `Tile` with its `TileID` and `AltIDMod`.
- `TransitionGeneration` (`transition_generator.dfy`) is the generator: the
  placeholder substitution, the join of transitions against the registry, the
  choice of the terrains B, and the file name. The class `TransitionGenerator`
  holds the three parsers and the terrain A that the program stores.
- Supporting modules:
  - `Text`: strip, case mapping, decimal and hex numerals, and the `02X` format.
  - `OrderedMaps`: a dictionary that remembers insertion order, as Python's does.
  - `Xml`: elements with attributes, `find` and `findall`.
  - `Wrappers`: `Option` and `Result`.

Parsing a file, and so the XML text, is outside the model. Each parser's
constructor takes the already parsed root element.

## Model

| member | source | states |
|---|---|---|
| Text.Strip | transition_generator/terrain_parser.py:37-38 | the result has no leading or trailing space and is no longer than the input |
| Text.StripSpec | transition_generator/terrain_parser.py:37-38 | the result is a contiguous slice of the input with only spaces outside it |
| Text.StripIdempotent | transition_generator/terrain_parser.py:69 | stripping twice equals stripping once |
| Text.StripEmpty | transition_generator/terrain_parser.py:40 | the stripped text is empty exactly when the input is all spaces |
| Text.Lower | transition_generator/terrain_parser.py:49 | `lower()` keeps the length and maps each character by the ASCII lower-case map |
| Text.Upper | transition_generator/terrain_parser.py:78 | `upper()` keeps the length and maps each character by the ASCII upper-case map |
| Text.LowerOfCase | transition_generator/terrain_parser.py:69 | lower-casing forgets the input's case: Lower(Upper(s)) == Lower(s) |
| Text.DecRoundTrip | transition_generator/terrain_parser.py:47-52 | ShowDec yields digits only, and reading them back gives the number |
| Text.ShowDec | transition_generator/terrain_parser.py:52 | `str(n)` is non-empty and has no leading zero: it starts with 0 only for n = 0 |
| Text.ParseInt | transition_generator/terrain_parser.py:47 | an all-digit text parses to its decimal value; any other text is an error |
| Text.HexRoundTrip | transition_generator/transition_parser.py:56 | ShowHex yields hex digits whose value is the number: one digit exactly below 16, at most two below 256 |
| Text.HexValue | transition_generator/transition_parser.py:56 | the value of a hex digit string is 0 exactly when every digit is 0 |
| Text.Hex2 | transition_generator/terrain_parser.py:48 | `f"{n:02X}"` consists of upper-case hex digits |
| Text.Hex2Width | transition_generator/terrain_parser.py:48 | the 02X form has at least two hex digits, exactly two below 256, and its value is the id |
| Text.Hex2Examples | transition_generator/terrain_parser.py:48 | 5, 171, 0 and 255 format as "05", "AB", "00" and "FF" |
| Text.HexSelectorForms | transition_generator/terrain_parser.py:76-78 | stripping and lower-casing "0x" or "0X" followed by h gives "0x" followed by the lower-case h |
| Text.DecSelectorForm | transition_generator/terrain_parser.py:82-83 | a decimal selector is unchanged by strip and lower-casing, and is not a hex literal |
| Text.ReplaceSpacesExample | transition_generator/transition_generator.py:142 | "Sand Dune" becomes "Sand_Dune" and "Grass" is unchanged |
| Text.ReplaceSpaces | transition_generator/transition_generator.py:142 | `replace(" ", "_")` keeps the length, puts _ for each space and keeps every other character |
| OrderedMaps.OrderedMap.Put | transition_generator/terrain_parser.py:55-57 | the key maps to the value and other entries are kept; the old keys stay, in order, at the front of the key list; validity is kept |
| OrderedMaps.OrderedMap.Values | transition_generator/transition_generator.py:121 | `values()` has one value per key, in key order, each the value stored under its key |
| OrderedMaps.ValuesAreEntries | transition_generator/transition_generator.py:121 | the values list holds exactly the values stored under the keys |
| Xml.Find | transition_generator/transition_type_parser.py:43 | the result is None exactly when no child has the tag; otherwise it is the first element of findall, so a child with the tag |
| Xml.FindFirst | transition_generator/transition_parser.py:49 | the child find returns is the earliest child with the tag: every child before it has another tag |
| Xml.Attribute | transition_generator/terrain_parser.py:37-38 | `get(name, "").strip()`: a missing attribute reads as "", a present one as its stripped value |
| Xml.FindAll | transition_generator/terrain_parser.py:36 | `findall(tag)` holds exactly the children with the tag, and no more elements than there are children |
| Xml.WithTagConcat | transition_generator/transition_parser.py:51 | the children with a tag are filtered element by element, so document order is kept across a concatenation |
| Xml.WithTagSingle | transition_generator/transition_parser.py:51 | one element is kept exactly when it carries the tag |
| Xml.WithTagFirst | transition_generator/transition_type_parser.py:43 | the first element kept is the earliest one carrying the tag |
| TerrainParsing.ParseEntry | transition_generator/terrain_parser.py:37-57 | an element gives a terrain exactly when its stripped Name is non-empty and its stripped ID is decimal; the terrain has that name and is well formed, and its ids denote that number |
| TerrainParsing.InsertEffect | transition_generator/terrain_parser.py:55-57 | a parsed terrain is stored under its lower-case name, hex key and decimal key, overwriting earlier entries |
| TerrainParsing.SkipEffect | transition_generator/terrain_parser.py:40-60 | a skipped element leaves all three dictionaries unchanged |
| TerrainParsing.InsertValid | transition_generator/terrain_parser.py:50-57 | inserting a parsed terrain keeps the index consistent |
| TerrainParsing.AddEntriesValid | transition_generator/terrain_parser.py:36-60 | the whole parse loop yields a consistent index from the empty one |
| TerrainParsing.IdForms | transition_generator/terrain_parser.py:47-53 | the hex key has at least two upper-case hex digits, exactly two when the id is below 256, and both the hex and the decimal key denote the id |
| TerrainParsing.Lookup | transition_generator/terrain_parser.py:62-88 | `get_terrain_by_str`: anything found is a record stored in one of the three dictionaries |
| TerrainParsing.LookupSound | transition_generator/terrain_parser.py:69-88 | a terrain found is well formed and is filed under the key the input selects: its lower-case name, else the upper-cased digits after 0x, else the decimal text |
| TerrainParsing.LookupHexNoFallThrough | transition_generator/terrain_parser.py:76-79 | a 0x selector never falls through to the decimal dictionary: it is the hex lookup or nothing |
| TerrainParsing.HexKeysPadded | transition_generator/terrain_parser.py:48-56 | every key of the hex dictionary has at least two digits |
| TerrainParsing.LookupOneDigitHex | transition_generator/terrain_parser.py:76-79 | "0x" with a single hex digit finds nothing unless it is a terrain name, because the hex keys are zero-padded |
| TerrainParsing.LookupBareHex | transition_generator/terrain_parser.py:76-88 | a selector whose stripped lower-case form is hex digits with at least one letter a-f, and is not a terrain name, finds nothing: bare hex is not an id |
| TerrainParsing.LookupBareHexExample | transition_generator/terrain_parser.py:85-87 | the selector "AB" that the error message offers as a hex id finds nothing unless a terrain is named "ab" |
| TerrainParsing.LookupByName | transition_generator/terrain_parser.py:69-73 | a selector whose stripped lower-case form is a stored name finds that terrain |
| TerrainParsing.LookupByOwnName | transition_generator/terrain_parser.py:69-73 | every stored terrain is found by its name, by its upper-case name and by its lower-case name |
| TerrainParsing.LookupByHex | transition_generator/terrain_parser.py:76-79 | a stored terrain is found by any input that strips and lower-cases to "0x" and its lower-case hex key, unless that text is taken by a name |
| TerrainParsing.LookupByHexLiteral | transition_generator/terrain_parser.py:76-79 | the hex lookup accepts the lower-case form of the key and the "0X" prefix |
| TerrainParsing.LookupByDec | transition_generator/terrain_parser.py:82-83 | a stored terrain is found by its decimal id, unless that text is taken by a name |
| TerrainParsing.NamesDistinct | transition_generator/terrain_parser.py:55 | the terrains in the name dictionary have pairwise distinct names |
| TerrainParsing.TerrainParser.constructor | transition_generator/terrain_parser.py:10-19 | the three dictionaries are the fold of the parse over all Terrain elements |
| TerrainParsing.TerrainParser.ParseTerrains | transition_generator/terrain_parser.py:36-60 | the loop extends the dictionaries by exactly the fold over the elements |
| TerrainParsing.TerrainParser.AddTerrain | transition_generator/terrain_parser.py:37-60 | one element is applied as one step of the fold |
| TerrainParsing.TerrainParser.GetTerrainByStr | transition_generator/terrain_parser.py:62-88 | a terrain found is well formed, and it is filed in the name dictionary under the stripped lower-case input, or failing that in the hex dictionary under the upper-cased digits after 0x, or failing both in the decimal dictionary under the input |
| TransitionTypeParsing.ValidateHashkeyExamples | transition_generator/transition_type_parser.py:60-68 | hex strings of either case are accepted; the empty string, "AG", "0x1" and "A B" are refused |
| TransitionTypeParsing.ValidateHashkey | transition_generator/transition_type_parser.py:60-68 | an accepted hashkey is non-empty and has no surrounding whitespace |
| TransitionTypeParsing.UpperHashkey | transition_generator/transition_generator.py:51 | the upper-case form of a valid hashkey is valid and has only upper-case hex digits |
| TransitionTypeParsing.KeepValid | transition_generator/transition_type_parser.py:47-50 | every kept value is a valid hashkey, and no more values are kept than were given |
| TransitionTypeParsing.KeptConcat | transition_generator/transition_type_parser.py:46-54 | the kept hashkeys of a concatenation are the concatenation of the kept hashkeys |
| TransitionTypeParsing.KeepValidMembers | transition_generator/transition_type_parser.py:47-54 | a value is kept exactly when it is given and is a valid hashkey |
| TransitionTypeParsing.KeptMembers | transition_generator/transition_type_parser.py:46-54 | a value is among the kept hashkeys exactly when some HashKey carries it and it is valid |
| TransitionTypeParsing.KeptSingle | transition_generator/transition_type_parser.py:47-54 | one HashKey contributes its stripped value when it is valid and nothing otherwise |
| TransitionTypeParsing.TypeEntryCases | transition_generator/transition_type_parser.py:35-58 | an element registers exactly when its stripped name is non-empty, it has HashKeys and at least one hashkey is valid; it registers that name with those hashkeys |
| TransitionTypeParsing.RegisterEffect | transition_generator/transition_type_parser.py:55-56 | registering overwrites the entry of that name only; an element that does not register changes nothing |
| TransitionTypeParsing.RegisterAllValid | transition_generator/transition_type_parser.py:34-58 | after the loop every registered name is non-empty and has a non-empty list of valid hashkeys |
| TransitionTypeParsing.TransitionTypeParser.constructor | transition_generator/transition_type_parser.py:10-17 | the registry is the fold of the registration over all TransitionType elements |
| TransitionTypeParsing.TransitionTypeParser.ParseTransitionTypes | transition_generator/transition_type_parser.py:34-58 | the loop extends the registry by exactly the fold over the elements |
| TransitionTypeParsing.TransitionTypeParser.AddTransitionType | transition_generator/transition_type_parser.py:35-58 | one element is applied as one registration step |
| TransitionTypeParsing.TransitionTypeParser.CollectHashkeys | transition_generator/transition_type_parser.py:45-54 | the collected list is the stripped values of the HashKey elements, in order, that pass validation |
| TransitionTypeParsing.TransitionTypeParser.GetTransitionTypes | transition_generator/transition_type_parser.py:70-72 | the list is the registry's key list, so it holds each registered name exactly once, in the insertion order that Put keeps |
| TransitionTypeParsing.TransitionTypeParser.GetHashkeysByTransitionType | transition_generator/transition_type_parser.py:74-81 | a registered name gives its registered list and any other name gives []; the list is non-empty exactly when the name is registered, and it holds only valid hashkeys |
| TransitionParsing.NormaliseTileId | transition_generator/transition_parser.py:54-56 | a 0x-prefixed hex tile id becomes a decimal numeral; any other id is unchanged |
| TransitionParsing.NormaliseValue | transition_generator/transition_parser.py:54-56 | the decimal numeral denotes the value of the hex digits |
| TransitionParsing.DecimalIdKept | transition_generator/transition_parser.py:54-56 | a decimal tile id passes through unchanged |
| TransitionParsing.NormaliseIdempotent | transition_generator/transition_parser.py:54-56 | normalising twice equals normalising once, and the result is never a hex literal |
| TransitionParsing.NormaliseNonEmpty | transition_generator/transition_parser.py:54-59 | normalisation keeps a non-empty id non-empty |
| TransitionParsing.NormaliseHexForm | transition_generator/transition_parser.py:54-56 | "0x" or "0X" followed by the hex form of n normalises to the decimal form of n |
| TransitionParsing.NormaliseExamples | transition_generator/transition_parser.py:54-56 | "0x2A" gives "42"; "0x", "0x2G" and "12" are unchanged |
| TransitionParsing.TileOf | transition_generator/transition_parser.py:52-60 | a tile is kept exactly when its normalised TileID and stripped AltIDMod are both non-empty, and it holds those two values |
| TransitionParsing.TileWellFormed | transition_generator/transition_parser.py:52-60 | every kept tile has a non-empty, normalised id and a non-empty, stripped AltIDMod |
| TransitionParsing.Kept | transition_generator/transition_parser.py:59-60 | one tile element contributes at most one tile |
| TransitionParsing.TilesOfConcat | transition_generator/transition_parser.py:51-60 | the tiles of a concatenation of elements are the concatenation of their tiles |
| TransitionParsing.TilesOfWellFormed | transition_generator/transition_parser.py:51-60 | every tile in the list is well formed |
| TransitionParsing.TilesOfSingle | transition_generator/transition_parser.py:51-60 | one element contributes its tile when kept and nothing otherwise |
| TransitionParsing.ContainerTiles | transition_generator/transition_parser.py:48-51 | a missing container gives no tiles; a present one gives the tiles of its children with the tile tag |
| TransitionParsing.ContainerTilesWellFormed | transition_generator/transition_parser.py:48-60 | every tile of a container is well formed |
| TransitionParsing.RecordOf | transition_generator/transition_parser.py:37-84 | an element gives a record exactly when its stripped Description is non-empty; the record has that description, an empty hashkey, and as maptiles and statictiles the tiles of its MapTiles and StaticTiles containers, which are empty when a container is missing |
| TransitionParsing.RecordWellFormed | transition_generator/transition_parser.py:45-84 | every record has a non-empty description, an empty hashkey and well-formed tiles |
| TransitionParsing.RecordsOfWellFormed | transition_generator/transition_parser.py:37-84 | every record of the loop is well formed |
| TransitionParsing.RecordsOfConcat | transition_generator/transition_parser.py:37-84 | the records of a concatenation are the concatenation of the records |
| TransitionParsing.RecordsOfSingle | transition_generator/transition_parser.py:37-84 | one element contributes its record when described and nothing otherwise |
| TransitionParsing.TransitionParser.constructor | transition_generator/transition_parser.py:12-21 | the entries are the records of all TransitionType elements |
| TransitionParsing.TransitionParser.ParseTransitions | transition_generator/transition_parser.py:37-84 | the loop appends exactly the records of the elements, and well-formed entries stay well formed |
| TransitionParsing.TransitionParser.AddTransition | transition_generator/transition_parser.py:38-84 | one element appends its record, or nothing when it has no description |
| TransitionParsing.TransitionParser.ParseTiles | transition_generator/transition_parser.py:47-75 | the loop builds exactly the tile list of the container |
| TransitionParsing.TransitionParser.ReadTile | transition_generator/transition_parser.py:52-60 | one tile element is read as TileOf states |
| TransitionParsing.TransitionParser.GetTransitions | transition_generator/transition_parser.py:86-88 | the list equals the stored entries, in order, and every record in it is well formed |
| TransitionGeneration.SubstituteConcat | transition_generator/transition_generator.py:50-58 | substitution distributes over concatenation of the pattern |
| TransitionGeneration.SubstituteChar | transition_generator/transition_generator.py:51-57 | "a" and "A" become the hex id of A, "b" and "B" that of B, and any other character becomes its upper-case form |
| TransitionGeneration.SubstituteUpperLength | transition_generator/transition_generator.py:50-58 | the length grows by the length of the inserted id, less one, for each placeholder |
| TransitionGeneration.SubstituteLength | transition_generator/transition_generator.py:46-58 | with two-digit ids, the result is as long as the pattern plus one per placeholder |
| TransitionGeneration.NoPlaceholders | transition_generator/transition_generator.py:50-58 | a pattern without A or B becomes its upper-case form |
| TransitionGeneration.SubstituteValid | transition_generator/transition_generator.py:50-58 | a valid pattern with hex ids gives a valid hashkey |
| TransitionGeneration.SubstituteExamples | transition_generator/transition_generator.py:50-58 | "AB12" gives "1F2E12", "ab" gives "1F2E" and "A0C" gives "1F0C", with ids 1F and 2E |
| TransitionGeneration.SubstituteUpper | transition_generator/transition_generator.py:50-58 | with non-empty ids, the substituted text is at least as long as the upper-cased pattern |
| TransitionGeneration.Substitute | transition_generator/transition_generator.py:50-58 | with non-empty ids, the hashkey is at least as long as the pattern |
| TransitionGeneration.ForHashkeys | transition_generator/transition_generator.py:76-91 | one record is produced per hashkey |
| TransitionGeneration.ForHashkeysIndex | transition_generator/transition_generator.py:76-91 | the i-th record has the transition's description and tiles and the i-th substituted hashkey |
| TransitionGeneration.ForTypes | transition_generator/transition_generator.py:74-91 | a transition whose description is none of the type names yields no record |
| TransitionGeneration.JoinUnregistered | transition_generator/transition_generator.py:72-92 | when no transition's description is a registered type, the join is empty |
| TransitionGeneration.ForTypesMatch | transition_generator/transition_generator.py:74-80 | with distinct type names, a transition matches one registered type or none |
| TransitionGeneration.ForRegistered | transition_generator/transition_generator.py:72-91 | a transition's records are those of its description's hashkeys, or none when the description is not registered |
| TransitionGeneration.JoinSingle | transition_generator/transition_generator.py:72-91 | a single transition produces its registered records |
| TransitionGeneration.JoinConcat | transition_generator/transition_generator.py:72-92 | the join of a concatenation of transitions is the concatenation of the joins |
| TransitionGeneration.JoinLength | transition_generator/transition_generator.py:72-92 | the join has one record per pair of a transition and a hashkey of its type |
| TransitionGeneration.JoinMembers | transition_generator/transition_generator.py:72-92 | a record is in the join exactly when some transition and some hashkey of its type produce it |
| TransitionGeneration.JoinHashkeysValid | transition_generator/transition_generator.py:81-90 | with hex terrain ids, every produced record has a valid hashkey and the description of one of the transitions |
| TransitionGeneration.JoinExample | transition_generator/transition_generator.py:72-92 | a two-transition example gives four records with the expected hashkeys, in order |
| TransitionGeneration.OtherTerrains | transition_generator/transition_generator.py:121-126 | a terrain is kept exactly when it is in the list and its name differs from A's; the result is no longer than the list |
| TransitionGeneration.OtherTerrainsConcat | transition_generator/transition_generator.py:122-126 | the filter distributes over concatenation |
| TransitionGeneration.OtherTerrainsCount | transition_generator/transition_generator.py:121-126 | with distinct names, exactly one terrain is dropped when A's name is present, and none otherwise |
| TransitionGeneration.SelectTerrainsB | transition_generator/transition_generator.py:108-131 | a chosen list is never empty, and has one terrain when B is requested; the error is never InvalidTerrainA, and it is InvalidTerrainB exactly when B is requested |
| TransitionGeneration.SelectRequested | transition_generator/transition_generator.py:109-118 | a requested B that resolves gives exactly that terrain; one that does not gives the InvalidTerrainB error |
| TransitionGeneration.SelectAll | transition_generator/transition_generator.py:119-131 | without B the result is the filter of the name dictionary's values, in their order, that drops the terrains named like A; it keeps every terrain not named like A, and only those, all well formed; one fewer than stored when A's name is present; NoTerrainB exactly when none is left |
| TransitionGeneration.TransitionGenerator.constructor | transition_generator/transition_generator.py:17-37 | the three parsers are built from their roots and terrain A is not yet set |
| TransitionGeneration.TransitionGenerator.ReplaceHashkeyPlaceholders | transition_generator/transition_generator.py:39-58 | the loop builds the substitution of the upper-cased pattern |
| TransitionGeneration.TransitionGenerator.GenerateTransInfosForPair | transition_generator/transition_generator.py:60-92 | the nested loops build exactly the join of the transitions against the registry for A's and B's hex ids |
| TransitionGeneration.TransitionGenerator.ForTypesLoop | transition_generator/transition_generator.py:74-91 | the inner loop over type names builds the records of one transition |
| TransitionGeneration.TransitionGenerator.ForHashkeysLoop | transition_generator/transition_generator.py:76-91 | the innermost loop builds one record per hashkey |
| TransitionGeneration.TransitionGenerator.GenerateTransInfos | transition_generator/transition_generator.py:94-131 | an unresolved A gives InvalidTerrainA and leaves A unset; otherwise A is stored and the result is the choice of terrains B |
| TransitionGeneration.TransitionGenerator.GenerateOutputFilenames | transition_generator/transition_generator.py:133-147 | the name is A's decimal id, "-", A's name, "_To_", B's decimal id, "-", B's name and ".xml", with spaces in names replaced by underscores |
| TransitionGeneration.FileNameNoSpaces | transition_generator/transition_generator.py:141-147 | the file name has no spaces when the ids have none |
| TransitionGeneration.FileNameExample | transition_generator/transition_generator.py:141-147 | "Sand Dune" with id 22 and "Grass" with id 3 give "22-Sand_Dune_To_3-Grass.xml" |

## Left out

- Reading and parsing XML files (`ET.parse`), the files' paths and the parse and file-not-found exceptions: each parser takes the parsed root element instead.
- Logging: the warnings and errors are not modelled. Their conditions are the skip branches, and the model has those.
- The fixed `data/transition_types.xml` path of the transition-type parser: its root element is a parameter.
- Rendering and writing the output (`xml_renderer.py`) and the command line (`main.py`) are not part of this model. `Args` holds only the two terrain selectors; the input transitions file is the transitions root passed to the constructor.
- `generate_transitions_xml_for_pair` and `run`: they render the join and write it to a file, and they skip a pair whose join is empty. The join, the file name and the choice of terrains B are modelled; rendering, writing and the per-pair exception handling are not.
- Unicode case mapping and digits: `lower`, `upper` and `isdigit` are modelled on ASCII letters and digits only. `strip` removes the full set of characters Python counts as whitespace.
- Text.ParseInt: Python's `int(…, 10)` also accepts a sign, underscores and non-ASCII digits. The model accepts plain ASCII digits only, and treats the others as format errors.
- Aliasing: records and tiles are values. The model does not capture that the generated records share the tile lists of the parsed transitions, or that `get_transitions` returns a fresh list.
- TransitionGeneration.TransitionGenerator.GenerateTransInfosForPair: requires terrain A to be set. The program raises `KeyError` instead, and only on reaching the first matching hashkey.
- TransitionGeneration.TransitionGenerator.GenerateOutputFilenames: requires terrain A to be set, where the program raises `KeyError`.
- The program's empty-dictionary initial value for terrain A is modelled as `None`.
- TerrainParsing.LookupByHex and TerrainParsing.LookupByDec: these hold only when no terrain's name is the selector text, because the name lookup comes first. The model has no single lookup round trip.
- The regular expressions are modelled as predicates on the text. `IsHexLiteral` stands for `0x[0-9a-fA-F]+` matched in full. The tile parser applies it to the stripped TileID, and `Lookup` applies it to the stripped, lower-cased selector. `ValidateHashkey` stands for `[A-Fa-f0-9]+`.
