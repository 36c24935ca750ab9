/** The library's round-robin colour selector (`ColorEmitter` in
    RainbowBar/Classes/RainbowBar.swift). */
module RainbowBarEmitter {
  import opened Palette

  class ColorEmitter {
    /** The rotating copy of the palette; `nil` until the first draw. */
    var colors: Option<seq<Color>>
    /** The palette the rotation was built from; `nil` until the first draw. */
    var refColors: Option<seq<Color>>
    /** How far `colors` has turned away from `refColors`. */
    ghost var offset: nat

    /** Both copies are unset, or the rotation is the reference palette turned
        by `offset`. */
    ghost predicate Valid()
      reads this
    {
      match refColors
      case None => colors == None
      case Some(ref) => offset < |ref| && colors == Some(Rotate(ref, offset))
    }

    /** The position in `palette` of the colour the next draw from `palette`
        returns: the current one when `palette` is the reference copy, its
        front when the rotation is about to be reset. */
    ghost function StartOffset(palette: seq<Color>): (r: nat)
      reads this
    {
      if refColors == Some(palette) then offset else 0
    }

    constructor ()
      ensures Valid()
      ensures colors == None && refColors == None
    {
      colors, refColors := None, None;
      offset := 0;
    }

    /** `nextColor(from:)`. An empty palette reaches `removeFirst()` on an
        empty array, which traps, so callers must pass a non-empty one; the
        result is then never `nil`. */
    method NextColor(newColors: seq<Color>) returns (c: Color)
      requires Valid()
      requires |newColors| > 0
      modifies this
      ensures Valid()
      ensures refColors == Some(newColors)
      ensures old(refColors) != Some(newColors) ==> c == newColors[0]
      ensures c == newColors[old(StartOffset(newColors))]
      ensures offset == (old(StartOffset(newColors)) + 1) % |newColors|
      ensures colors == Some(Rotate(newColors, offset))
    {
      if !(refColors.Some? && refColors.value == newColors) {
        colors := Some(newColors);
        refColors := Some(newColors);
        offset := 0;
        assert Rotate(newColors, 0) == newColors;
      }
      var ring := colors.value;
      RotateHeadToBack(newColors, offset);
      c := ring[0];
      colors := Some(ring[1..] + [c]);
      offset := (offset + 1) % |newColors|;
    }
  }
}
