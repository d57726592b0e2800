/** The Marmara bounding box both ingestion scripts filter on. */
module Region {

  const MinLat: real := 39.0
  const MaxLat: real := 42.5
  const MinLon: real := 26.0
  const MaxLon: real := 30.8

  /** `is_in_marmara`: the closed box, boundaries included. */
  predicate InMarmara(lat: real, lon: real)
  {
    MinLat <= lat <= MaxLat && MinLon <= lon <= MaxLon
  }
}
