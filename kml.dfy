/**
  The KML vocabulary the location-history code reads and writes. Every tag is
  qualified with the KML 2.2 namespace in Clark notation, which is how
  ElementTree stores the names matched by the `ns:` prefixed path queries.
*/
module Kml {

  const DocumentTag: string := "{http://www.opengis.net/kml/2.2}Document"
  const NameTag: string := "{http://www.opengis.net/kml/2.2}name"
  const PlacemarkTag: string := "{http://www.opengis.net/kml/2.2}Placemark"
  const PointTag: string := "{http://www.opengis.net/kml/2.2}Point"
  const LineStringTag: string := "{http://www.opengis.net/kml/2.2}LineString"
  const TimeSpanTag: string := "{http://www.opengis.net/kml/2.2}TimeSpan"
  const CoordinatesTag: string := "{http://www.opengis.net/kml/2.2}coordinates"

  /** The exceptions the location-history functions raise, one per message. */
  datatype Error =
    | Malformed       // 'Location history is malformed.'
    | FetchFailed     // 'Could not fetch location history.'
    | NoDates         // 'You must specify at least one date.'
    | StartAfterEnd   // 'Start date cannot be later than end date.'

  /** The tags the model distinguishes are pairwise different. */
  lemma TagsDistinct()
    ensures DocumentTag != NameTag && DocumentTag != PlacemarkTag
    ensures NameTag != PlacemarkTag
    ensures PlacemarkTag != PointTag && PlacemarkTag != LineStringTag
    ensures PlacemarkTag != TimeSpanTag && PlacemarkTag != CoordinatesTag
    ensures PointTag != LineStringTag && PointTag != TimeSpanTag
    ensures LineStringTag != TimeSpanTag
  {
    assert DocumentTag[33] != NameTag[33];
    assert DocumentTag[33] != PlacemarkTag[33];
    assert NameTag[33] != PlacemarkTag[33];
    assert PlacemarkTag[33] != PointTag[33];
    assert PlacemarkTag[33] != LineStringTag[33];
    assert PlacemarkTag[33] != TimeSpanTag[33];
    assert PlacemarkTag[33] != CoordinatesTag[33];
    assert PointTag[33] != LineStringTag[33];
    assert PointTag[33] != TimeSpanTag[33];
    assert LineStringTag[32] != TimeSpanTag[32];
  }
}
