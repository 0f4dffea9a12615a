/**
  The `Color` enumeration: the four robots. A colour's value is its index in
  a robot state.
  */
module Colors {

  import opened Wrappers

  datatype Color = BLUE | YELLOW | GREEN | RED

  /** Every colour, in definition order (the order `list(Color)` yields). */
  const AllColors: seq<Color> := [BLUE, YELLOW, GREEN, RED]

  /** The value of a colour is its position in the enumeration. */
  function Index(c: Color): (v: nat)
    ensures v < |AllColors| && AllColors[v] == c
  {
    match c
    case BLUE => 0
    case YELLOW => 1
    case GREEN => 2
    case RED => 3
  }

  /** Distinct colours index distinct slots of a state. */
  lemma IndexInjective(c1: Color, c2: Color)
    ensures Index(c1) == Index(c2) <==> c1 == c2
  {
  }

  /**
    `revert_color_value`: indexes the list of colours with `value`. Python
    list indexing also accepts -4..-1 (counting from the end); any other
    value raises `IndexError`, modelled as `None`.
    */
  function RevertColorValue(value: int): (r: Option<Color>)
    ensures r.Some? <==> -4 <= value < 4
    ensures 0 <= value < 4 ==> r.Some? && Index(r.value) == value
    ensures -4 <= value < 0 ==> r.Some? && Index(r.value) == value + 4
  {
    if 0 <= value < 4 then Some(AllColors[value])
    else if -4 <= value < 0 then Some(AllColors[value + 4])
    else None
  }

  /** Reverting a colour's value gives back the colour. */
  lemma RevertRoundTrip(c: Color)
    ensures RevertColorValue(Index(c)) == Some(c)
  {
  }

  /** `rgb_color`: the drawing colour of each robot (defined for all four). */
  function RgbColor(c: Color): (int, int, int)
  {
    match c
    case BLUE => (0, 153, 255)
    case YELLOW => (0, 255, 255)
    case GREEN => (0, 255, 0)
    case RED => (255, 0, 0)
  }

  /** Different robots are drawn in different colours, each channel a byte. */
  lemma RgbDistinct(c1: Color, c2: Color)
    ensures c1 != c2 ==> RgbColor(c1) != RgbColor(c2)
    ensures 0 <= RgbColor(c1).0 < 256 && 0 <= RgbColor(c1).1 < 256 && 0 <= RgbColor(c1).2 < 256
  {
  }
}
