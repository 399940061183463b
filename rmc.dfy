/** The NMEA 0183 RMC sentence as the forwarder sees it: a 6-byte tag and two
    coordinate fields cut at fixed byte offsets, not found by commas. */
module Rmc {
  import opened Common

  /** `$GPRMC`, i.e. `[36, 71, 80, 82, 77, 67]`. */
  const RmcTag: seq<byte> := [36, 71, 80, 82, 77, 67]

  /** The latitude field `ddmm.mmmmm,N` is bytes [19, 31). */
  const LatStart: nat := 19
  const LatEnd: nat := 31
  /** The longitude field `dddmm.mmmmm,W` is bytes [32, 45). */
  const LonStart: nat := 32
  const LonEnd: nat := 45

  /** The sentence starts with the RMC tag: `&buffer[0..6] == [36, 71, 80,
      82, 77, 67]`, compared byte by byte. Only the first six bytes matter,
      so a sentence cut after them keeps its tag. */
  predicate HasRmcTag(s: seq<byte>): (r: bool)
    ensures r <==> |s| >= 6 && forall i :: 0 <= i < 6 ==> s[i] == RmcTag[i]
    ensures r ==> |s| >= 6 && s[0] == Dollar
    ensures forall k :: 6 <= k < |s| ==> (HasRmcTag(s[..k]) <==> r)
  {
    |s| >= 6 && s[..6] == RmcTag
  }

  /** A fix report, as in the source's comment (with the `\r` the framer
      keeps). */
  // "$GPRMC,031737.00,A,4523.74241,N,07540.61255,W,0.551,,300321,,,A*66\r"
  const FixExample: seq<byte> :=
      [36, 71, 80, 82, 77, 67, 44, 48]
    + [51, 49, 55, 51, 55, 46, 48, 48]
    + [44, 65, 44, 52, 53, 50, 51, 46]
    + [55, 52, 50, 52, 49, 44, 78, 44]
    + [48, 55, 53, 52, 48, 46, 54, 49]
    + [50, 53, 53, 44, 87, 44, 48, 46]
    + [53, 53, 49, 44, 44, 51, 48, 48]
    + [51, 50, 49, 44, 44, 44, 65, 42]
    + [54, 54, 13]

  /** A "void" report without a fix, as in the source's comment: its fields
      are empty, so it is far shorter than the fixed offsets assume. */
  // "$GPRMC,030052.00,V,,,,,,,300321,,,N*7A\r"
  const VoidExample: seq<byte> :=
      [36, 71, 80, 82, 77, 67, 44, 48]
    + [51, 48, 48, 53, 50, 46, 48, 48]
    + [44, 86, 44, 44, 44, 44, 44, 44]
    + [44, 51, 48, 48, 51, 50, 49, 44]
    + [44, 44, 78, 42, 55, 65, 13]

  // "4523.74241,N"
  const FixLatitude: seq<byte> := [52, 53, 50, 51, 46, 55, 52, 50, 52, 49, 44, 78]
  // "07540.61255,W"
  const FixLongitude: seq<byte> := [48, 55, 53, 52, 48, 46, 54, 49, 50, 53, 53, 44, 87]

  /** The fixed offsets pick the latitude and longitude out of a fix report,
      and the void report ends before the longitude field would. */
  lemma ExamplesFields()
    ensures HasRmcTag(FixExample) && |FixExample| == 67
    ensures FixExample[LatStart..LatEnd] == FixLatitude
    ensures FixExample[LonStart..LonEnd] == FixLongitude
    ensures HasRmcTag(VoidExample) && |VoidExample| == 39 < LonEnd
  {
    assert FixExample[..6] == RmcTag by {
      forall i | 0 <= i < 6 ensures FixExample[..6][i] == RmcTag[i] { }
    }
    assert VoidExample[..6] == RmcTag by {
      forall i | 0 <= i < 6 ensures VoidExample[..6][i] == RmcTag[i] { }
    }
    assert FixExample[LatStart..LatEnd] == FixLatitude by {
      forall i | 0 <= i < 12 ensures FixExample[LatStart..LatEnd][i] == FixLatitude[i] { }
    }
    assert FixExample[LonStart..LonEnd] == FixLongitude by {
      forall i | 0 <= i < 13 ensures FixExample[LonStart..LonEnd][i] == FixLongitude[i] { }
    }
  }
}
