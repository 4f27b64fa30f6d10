/** Choice of the projected coordinate reference system for a study area given
    in geographic coordinates: the WGS 84 / UTM zone of the centroid. */
module Utm {
  import Decimal

  /** Python's int() on a float: truncation toward zero. */
  function Trunc(x: real): (r: int)
    ensures x >= 0.0 ==> r as real <= x < r as real + 1.0
    ensures x < 0.0 ==> r as real - 1.0 < x <= r as real
  {
    if x >= 0.0 then x.Floor else -((-x).Floor)
  }

  /** The zone number of a longitude (degrees), computed as the source does:
      int((lon + 180) / 6) + 1. */
  function UtmZone(lon: real): (z: int)
    ensures lon >= -180.0 ==> z >= 1
    ensures lon < 180.0 ==> z <= 60
  {
    Trunc((lon + 180.0) / 6.0) + 1
  }

  /** Every longitude from -180 on lies in the 6-degree band of its zone;
      here truncation and floor agree because lon + 180 is not negative. */
  lemma UtmZoneBand(lon: real)
    requires lon >= -180.0
    ensures var z := UtmZone(lon);
      z >= 1 && -180.0 + 6.0 * (z - 1) as real <= lon < -180.0 + 6.0 * z as real
  {
  }

  /** For a longitude in [-180, 180) the zone is one of 1..60. */
  lemma UtmZoneRange(lon: real)
    requires -180.0 <= lon < 180.0
    ensures 1 <= UtmZone(lon) <= 60
  {
    UtmZoneBand(lon);
  }

  /** The EPSG code of the WGS 84 / UTM zone: 326zz north of the equator
      (latitude 0 included), 327zz south of it. */
  function EpsgCode(lon: real, lat: real): (c: int)
    ensures 1 <= UtmZone(lon) <= 60 ==>
      && c % 100 == UtmZone(lon)
      && (c / 100 == 326 <==> lat >= 0.0)
      && (c / 100 == 327 <==> lat < 0.0)
  {
    if lat >= 0.0 then 32600 + UtmZone(lon) else 32700 + UtmZone(lon)
  }

  /** The code encodes the hemisphere in its hundreds and the zone in its
      last two digits, and lies in 32601..32660 or 32701..32760. */
  lemma EpsgCodeRange(lon: real, lat: real)
    requires -180.0 <= lon < 180.0
    ensures var c := EpsgCode(lon, lat);
      && (lat >= 0.0 ==> 32601 <= c <= 32660)
      && (lat < 0.0 ==> 32701 <= c <= 32760)
      && c % 100 == UtmZone(lon)
      && (c / 100 == 326 <==> lat >= 0.0)
      && (c / 100 == 327 <==> lat < 0.0)
  {
    UtmZoneRange(lon);
  }

  /** The CRS identifier the source returns: "EPSG:" followed by the code;
      for a longitude from -180 on the code is positive and its digits read
      back as the code. */
  function UtmCrs(lon: real, lat: real): (s: string)
    ensures |s| > 5 && s[..5] == "EPSG:"
    ensures lon >= -180.0 ==> Decimal.AllDigits(s[5..]) && Decimal.DigitsValue(s[5..]) == EpsgCode(lon, lat)
  {
    "EPSG:" + Decimal.IntToString(EpsgCode(lon, lat))
  }

  /** For a longitude in [-180, 180) the identifier is ten characters long,
      "EPSG:" and five digits that read back as the code. */
  lemma UtmCrsFormat(lon: real, lat: real)
    requires -180.0 <= lon < 180.0
    ensures var s := UtmCrs(lon, lat);
      && |s| == 10
      && s[..5] == "EPSG:"
      && Decimal.AllDigits(s[5..])
      && Decimal.DigitsValue(s[5..]) == EpsgCode(lon, lat)
  {
    var c := EpsgCode(lon, lat);
    EpsgCodeRange(lon, lat);
    Decimal.FiveDigits(c);
    var s := UtmCrs(lon, lat);
    assert s[5..] == Decimal.NatToString(c);
  }

  /** As written, a centroid on the antimeridian (longitude 180) gets zone 61,
      and EPSG:32661 is not a UTM zone. */
  lemma UtmZoneAntimeridian(lat: real)
    requires lat >= 0.0
    ensures UtmZone(180.0) == 61
    ensures EpsgCode(180.0, lat) == 32661
  {
    assert (180.0 + 180.0) / 6.0 == 60.0;
  }

  /** The zone with longitude 180 assigned to zone 60, the band 174..180 it
      closes. */
  function CorrectedUtmZone(lon: real): (z: int)
    requires -180.0 <= lon <= 180.0
    ensures 1 <= z <= 60
    ensures lon < 180.0 ==> z == UtmZone(lon)
    ensures -180.0 + 6.0 * (z - 1) as real <= lon <= -180.0 + 6.0 * z as real
  {
    UtmZoneBand(lon);
    if lon == 180.0 then 60 else UtmZone(lon)
  }
}
