/** `Util.vars.z_index` and `Util.getZIndex`: a counter that starts at 900
    and hands out its current value while moving one up. */
module Counter {

  const InitialZIndex: int := 900

  class Vars {
    var zIndex: int

    constructor ()
      ensures zIndex == InitialZIndex
    {
      zIndex := InitialZIndex;
    }

    /** Returns the value before the increment. */
    method GetZIndex() returns (z: int)
      modifies this
      ensures zIndex == old(zIndex) + 1
      ensures z == old(zIndex) && z < zIndex
    {
      zIndex := zIndex + 1;
      z := zIndex - 1;
    }
  }
}
