/** Values shared by every module of the model: optional values, results with
    an error path, and the abstract geometry value the database stores. */
module Common {

  datatype Option<T> = None | Some(value: T)

  /** A computation that either yields a value or raises (the Python code's
      exceptions and failed asserts). */
  datatype Result<T, E> = Ok(value: T) | Err(error: E)

  /** A geometry as the database holds it: its SRID and its hex WKB dump.
      Areas, intersections and the WKB encoding itself belong to the spatial
      engine and are not modelled; a geometry is only carried around. */
  datatype Geometry = Geometry(srid: int, wkbHex: string)

  /** The SRID of WGS84 longitude/latitude, the one reference system every
      table of the toolkit is reprojected to. */
  const Wgs84Srid: int := 4326
}
