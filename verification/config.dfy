/** The game panel's fixed configuration: screen geometry, world size,
    target frame rate, slot capacities and the game-state codes. All of
    them are fixed when the panel is constructed and never change. */
module Config {

  /** Side of a tile in the source art, and the factor it is scaled by. */
  const OriginalTileSize: int := 32
  const Scale: int := 3

  /** Side of a tile on screen, and the screen measured in tiles and in
      pixels. */
  const TileSize: int := OriginalTileSize * Scale
  const MaxScreenCol: int := 16
  const MaxScreenRow: int := 9
  const ScreenWidth: int := TileSize * MaxScreenCol
  const ScreenHeight: int := TileSize * MaxScreenRow

  /** The world is a square of tiles. */
  const MaxWorldCol: int := 50
  const MaxWorldRow: int := 50

  /** Target frames per second the panel is constructed with. */
  const DefaultFps: int := 60

  /** Capacities of the object, NPC and enemy slot arrays. */
  const ObjCapacity: nat := 10
  const NpcCapacity: nat := 10
  const EnemyCapacity: nat := 20

  /** Game-state codes; the state itself is a plain `int` field. */
  const DownloadState: int := 0
  const MenuState: int := 1
  const PlayState: int := 2
  const PauseState: int := 3

  /** The derived screen geometry: 96-pixel tiles on a 1536 x 864 screen. */
  lemma ScreenGeometry()
    ensures TileSize == 96
    ensures ScreenWidth == 1536 && ScreenHeight == 864
    ensures ScreenWidth == MaxScreenCol * TileSize && ScreenHeight == MaxScreenRow * TileSize
  {
  }

  /** The four game-state codes are pairwise distinct, so a state value
      names exactly one mode. */
  lemma GameStatesDistinct()
    ensures DownloadState != MenuState && DownloadState != PlayState && DownloadState != PauseState
    ensures MenuState != PlayState && MenuState != PauseState
    ensures PlayState != PauseState
    ensures PlayState == 2
  {
  }
}
