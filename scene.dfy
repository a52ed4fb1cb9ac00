/** Stand-ins for the three.js and helper objects the core creates and
    hands around. Only their identity and the instance buffers they carry
    matter to the core; geometry, materials and shaders are not modelled. */
module Scene {

  /** An instanced particle mesh: the `pindex` (Uint16Array) and `offset`
      (Float32Array, three slots per instance) buffers it was built from. */
  class Mesh {
    const pindex: array<int>
    const offset: array<int>

    constructor (pindex: array<int>, offset: array<int>)
      ensures this.pindex == pindex && this.offset == offset
    {
      this.pindex := pindex;
      this.offset := offset;
    }
  }

  /** The invisible plane the cursor ray is tested against, sized to the
      image in pixels. */
  class Plane {
    const width: nat
    const height: nat

    constructor (width: nat, height: nat)
      ensures this.width == width && this.height == height
    {
      this.width := width;
      this.height := height;
    }
  }

  /** The displacement texture fed by cursor moves; its behaviour is not
      part of this model, only whether it exists. */
  class TouchTexture {
    constructor ()
    {
    }
  }

  /** The `interactivePoints` array: [x, y] grid coordinates that the
      sparse pass pushes and the controls read through a shared reference. */
  class PointList {
    var items: seq<(int, int)>

    constructor ()
      ensures items == []
    {
      items := [];
    }

    method Push(p: (int, int))
      modifies this
      ensures items == old(items) + [p]
    {
      items := items + [p];
    }
  }
}
