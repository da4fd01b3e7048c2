/** The sprite capability an animation state drives: a frame-index slot
    (`AnimationSprite`, implemented for `TextureAtlas`). */
module Sprites {

  class TextureAtlas {
    /** The sprite-sheet tile currently displayed. */
    var index: nat

    constructor (index: nat)
      ensures this.index == index
    {
      this.index := index;
    }

    /** `get_index`: a pure read of the slot. */
    function GetIndex(): (i: nat)
      reads this
      ensures i == index
    {
      index
    }

    /** `set_index`: writes the slot and nothing else; a later `GetIndex`
        observes exactly the value written. */
    method SetIndex(i: nat)
      modifies this`index
      ensures GetIndex() == i
    {
      index := i;
    }
  }
}
