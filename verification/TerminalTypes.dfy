/** Colours, characters and their appearance, as in src/terminal/palette.c, src/terminal/common.c
    and the drawing parts of src/terminal/display.c. */
module TerminalTypes {

  const COLOR_NONE := -1          // a colour that is not in the palette
  const COLOR_FOREGROUND := -2    // GUAC_TERMINAL_COLOR_FOREGROUND
  const COLOR_BACKGROUND := -3    // GUAC_TERMINAL_COLOR_BACKGROUND
  const CONTINUATION := -1        // GUAC_CHAR_CONTINUATION
  const SPACE := 32

  datatype Rgb = Rgb(red: nat, green: nat, blue: nat)

  datatype Color = Color(index: int, rgb: Rgb)

  datatype Attributes = Attributes(bold: bool, halfBright: bool, reverse: bool, cursor: bool, underscore: bool,
                                   foreground: Color, background: Color)

  datatype Char = Char(value: int, attributes: Attributes, width: int)

  datatype Palette = Palette(colors: seq<Color>, foreground: Color, background: Color) {
    /** Every colour is stored under its own index. */
    predicate WellIndexed() {
      && |colors| == 256 && (forall i :: 0 <= i < 256 ==> colors[i].index == i)
      && foreground.index == COLOR_FOREGROUND && background.index == COLOR_BACKGROUND
    }

    /** guac_terminal_display_lookup_color, which leaves the colour alone if the lookup fails. */
    function Resolve(color: Color): Color {
      if color.index == COLOR_FOREGROUND then foreground
      else if color.index == COLOR_BACKGROUND then background
      else if 0 <= color.index < |colors| then colors[color.index]
      else color
    }
  }

  /** guac_terminal_colorcmp, as far as equality goes. */
  predicate SameColor(a: Color, b: Color) {
    if a.index != COLOR_NONE && b.index != COLOR_NONE then a.index == b.index else a.rgb == b.rgb
  }

  /** guac_terminal_has_glyph */
  predicate HasGlyph(value: int) {
    value != 0 && value != SPACE && value != CONTINUATION
  }

  /** The colour behind a character. */
  function Backdrop(ch: Char): Color {
    if ch.attributes.reverse != ch.attributes.cursor then ch.attributes.foreground else ch.attributes.background
  }

  /** __guac_terminal_set_colors: the colour of the glyph itself. */
  function GlyphColor(palette: Palette, ch: Char): Rgb {
    var a := ch.attributes;
    var plain := if a.reverse != a.cursor then a.background else a.foreground;
    var chosen := if a.bold && !a.halfBright && 0 <= plain.index <= 7 && plain.index + 8 < |palette.colors|
                  then palette.colors[plain.index + 8] else plain;
    var rgb := palette.Resolve(chosen).rgb;
    if a.halfBright && !a.bold then Rgb(rgb.red / 2, rgb.green / 2, rgb.blue / 2) else rgb
  }

  /** What a cell of the screen shows: nothing but colour, or one column of a glyph. */
  datatype Look = Blank(back: Rgb) | Glyph(codepoint: int, column: nat, front: Rgb, back: Rgb)

  /** What the given column of a character looks like once it has been drawn. */
  function ShowColumn(palette: Palette, ch: Char, column: nat): Look {
    var back := palette.Resolve(Backdrop(ch)).rgb;
    if HasGlyph(ch.value) then Glyph(ch.value, column, GlyphColor(palette, ch), back) else Blank(back)
  }

  function Show(palette: Palette, ch: Char): Look {
    ShowColumn(palette, ch, 0)
  }

  /** How many columns are drawn for a character; blanks are drawn as spaces. */
  function DrawnWidth(ch: Char): int {
    if HasGlyph(ch.value) then ch.width else 1
  }

  /** The colour components stored with a palette colour are those the palette has now. */
  predicate Fresh(palette: Palette, color: Color) {
    palette.Resolve(color).rgb == color.rgb
  }

  /** A resolved colour that compares as equal to an unresolved one resolves to the same components
      exactly unless the former is outside of the palette and the latter has gone stale. */
  lemma SameColorIffFresh(palette: Palette, a: Color, b: Color)
    requires palette.WellIndexed() && -3 <= a.index < 256 && SameColor(b, palette.Resolve(a))
    ensures palette.Resolve(a).rgb == palette.Resolve(b).rgb <==> a.index != COLOR_NONE || Fresh(palette, b)
  {
  }

  /** guac_terminal_fit_to_range */
  function Fit(value: int, min: int, max: int): int {
    if value < min then min else if value > max then max else value
  }
}
