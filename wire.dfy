/** The values that travel from the capture page to the upload endpoint:
    the JSON body of `POST /upload` as the handler reads it. */
module Wire {

  datatype Option<+T> = None | Some(value: T)

  datatype Result<+T, +E> = Success(value: T) | Failure(error: E)

  /** A `latitude` or `longitude` field: JSON `null` (or absent, which
      `dict.get` also reads as `None`) or a number.  Floats are modelled
      as reals. */
  datatype Coord = Null | Number(value: real)

  /** Python truthiness of a coordinate: `None` and `0.0` are false. */
  predicate Truthy(c: Coord)
  {
    c.Number? && c.value != 0.0
  }

  /** The JSON body.  `None` stands for a field that is absent or `null`;
      `timestamp` is sent by the page but never read by the handler. */
  datatype UploadRequest = UploadRequest(
    image: Option<string>,
    timestamp: Option<string>,
    latitude: Coord,
    longitude: Coord,
    locationName: Option<string>)
}
