/** The messages exchanged between the game server and its clients. */
module Wire {

  /** A single-precision float, kept as its IEEE 754 bit pattern: positions
      are only copied, never computed with, on the paths modelled here. */
  type Float32 = bv32

  /** 0.0, 1.0 and 0.2 (the float nearest to it) as single-precision bit patterns. */
  const FloatZero: Float32 := 0x0000_0000
  const FloatOne: Float32 := 0x3F80_0000
  const FloatFifth: Float32 := 0x3E4C_CCCD

  /** A `[2]float32`. */
  datatype Vec2 = Vec2(x: Float32, y: Float32)

  /** A `[3]float32` colour. */
  datatype Rgb = Rgb(r: Float32, g: Float32, b: Float32)

  /** One player's entry in a server snapshot. */
  datatype WirePlayer = WirePlayer(position: Vec2, color: Rgb)

  /** What the server sends every tick: every player, and the movement speed. */
  datatype ServerState = ServerState(players: seq<WirePlayer>, speed: Float32)

  /** What a client sends: its own position. */
  datatype ClientState = ClientState(position: Vec2)
}
