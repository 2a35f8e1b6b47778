/** The stage of src/model/Stage.ts: the shapes keyed by id, and the camera. */
module Stage {
  import Shape
  import Camera

  /** `shapes.set(shape.id, shape)` on the id-keyed shape map: the shape is found under its
      id, every other entry is kept, and the map grows only when the id is new. */
  function WithShape(shapes: map<string, Shape.Shape>, shape: Shape.Shape): (r: map<string, Shape.Shape>)
    ensures shape.id in r && r[shape.id] == shape
    ensures forall id :: id != shape.id ==> (id in r <==> id in shapes)
    ensures forall id :: id != shape.id && id in shapes ==> r[id] == shapes[id]
    ensures |r| == if shape.id in shapes then |shapes| else |shapes| + 1
  {
    var r := shapes[shape.id := shape];
    assert r.Keys == shapes.Keys + {shape.id};
    r
  }

  /** Adding the same shape twice leaves the map as adding it once. */
  lemma WithShapeIdempotent(shapes: map<string, Shape.Shape>, shape: Shape.Shape)
    ensures WithShape(WithShape(shapes, shape), shape) == WithShape(shapes, shape)
  {
  }

  /** A later shape with an id already present replaces the earlier one. */
  lemma WithShapeReplaces(shapes: map<string, Shape.Shape>, first: Shape.Shape, second: Shape.Shape)
    requires first.id == second.id
    ensures WithShape(WithShape(shapes, first), second) == WithShape(shapes, second)
  {
  }

  class Stage {
    var shapes: map<string, Shape.Shape>
    var camera: Camera.Camera

    /** A stage starts with no shapes and a fresh camera built from the camera options. */
    constructor (cameraWidth: real, cameraHeight: real)
      ensures shapes == map[] && fresh(camera)
      ensures camera.width == cameraWidth && camera.height == cameraHeight
      ensures camera.translation == (0.0, 0.0) && camera.scaling == 1.0
    {
      shapes := map[];
      camera := new Camera.Camera(cameraWidth, cameraHeight);
    }

    /** `addShape`: stores the shape under its id, replacing any shape with that id. */
    method AddShape(shape: Shape.Shape)
      modifies this
      ensures shapes == WithShape(old(shapes), shape)
      ensures camera == old(camera)
    {
      shapes := shapes[shape.id := shape];
    }
  }

  /** Calling `addShape` twice with the same shape leaves the stage as one call does. */
  method AddShapeTwice(stage: Stage, shape: Shape.Shape)
    modifies stage
    ensures stage.shapes == WithShape(old(stage.shapes), shape)
  {
    stage.AddShape(shape);
    stage.AddShape(shape);
    WithShapeIdempotent(old(stage.shapes), shape);
  }
}
