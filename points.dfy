/** The two- and three-dimensional points of the geometry package (coordinates are doubles). */
module Points {
  datatype Point2D = Point2D(x: real, y: real)
  datatype Point3D = Point3D(x: real, y: real, z: real)
}
