/** The records passed between the parsers and the generator. */
module TransInfos {

  /** One `MapTile`/`StaticTile` entry: its `TileID` and `AltIDMod`. */
  datatype Tile = Tile(tileId: string, altIdMod: string)

  /**
   * `TransInfo`: a transition occurrence. The parser leaves `hashkey` empty; the
   * generator fills it in and shares the two tile lists with the parsed transition.
   */
  datatype TransInfo = TransInfo(
    description: string,
    hashkey: string,
    maptiles: seq<Tile>,
    statictiles: seq<Tile>)
}
