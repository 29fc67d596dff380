/** The vector value types. Components are named fields; `Values` lists them
    in declaration order (x, y, [z], [w]). Since scalars are idealised as
    `real`, one datatype stands for both the single- and double-precision
    variant of a shape (`vec3`/`dvec3`, `vec4`/`dvec4`, `vec2`/`dvec2`). */
module Vectors {

  datatype Vec2 = Vec2(x: real, y: real) {
    function Values(): (r: seq<real>)
      ensures |r| == 2
    {
      [x, y]
    }
  }

  datatype Vec3 = Vec3(x: real, y: real, z: real) {
    function Values(): (r: seq<real>)
      ensures |r| == 3
    {
      [x, y, z]
    }
  }

  datatype Vec4 = Vec4(x: real, y: real, z: real, w: real) {
    function Values(): (r: seq<real>)
      ensures |r| == 4
    {
      [x, y, z, w]
    }
  }

  datatype BVec2 = BVec2(x: bool, y: bool) {
    function Values(): (r: seq<bool>)
      ensures |r| == 2
    {
      [x, y]
    }
  }

  datatype BVec3 = BVec3(x: bool, y: bool, z: bool) {
    function Values(): (r: seq<bool>)
      ensures |r| == 3
    {
      [x, y, z]
    }
  }

  datatype BVec4 = BVec4(x: bool, y: bool, z: bool, w: bool) {
    function Values(): (r: seq<bool>)
      ensures |r| == 4
    {
      [x, y, z, w]
    }
  }

  datatype IVec2 = IVec2(x: int, y: int) {
    function Values(): (r: seq<int>)
      ensures |r| == 2
    {
      [x, y]
    }
  }

  datatype IVec3 = IVec3(x: int, y: int, z: int) {
    function Values(): (r: seq<int>)
      ensures |r| == 3
    {
      [x, y, z]
    }
  }

  datatype IVec4 = IVec4(x: int, y: int, z: int, w: int) {
    function Values(): (r: seq<int>)
      ensures |r| == 4
    {
      [x, y, z, w]
    }
  }
}
