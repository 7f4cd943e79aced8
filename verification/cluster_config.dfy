/** `Config.ShortRegion` (pkg/cluster/config.go): the short form of an AWS region used in
    templates, e.g. `usw2` for `us-west-2`. */
module ClusterConfig {
  import opened GoStrings

  /** Go slices the first two characters of the first part and the first character of the
      second; shorter parts make it panic, so a three-part region must have them. */
  predicate ShortRegionDefined(region: string) {
    var parts := Split(region, '-');
    |parts| == 3 ==> |parts[0]| >= 2 && |parts[1]| >= 1
  }

  /** `ShortRegion`: a region of three `-`-separated parts loses its dashes and is cut to
      two characters of the first part, one of the second, and all of the third; any
      other region is returned as it is. */
  function ShortRegion(region: string): (r: string)
    requires ShortRegionDefined(region)
    ensures var parts := Split(region, '-');
      |parts| == 3 ==>
        && |r| == 3 + |parts[2]| && '-' !in r
        && r[..2] == parts[0][..2] && r[2] == parts[1][0] && r[3..] == parts[2]
    ensures |Split(region, '-')| != 3 ==> r == region
  {
    var parts := Split(region, '-');
    if |parts| != 3 then region
    else
      ShortForm(parts[0], parts[1], parts[2])
  }

  /** The three parts cut and glued: dash-free when the parts are. */
  function ShortForm(a: string, b: string, c: string): (r: string)
    requires |a| >= 2 && |b| >= 1
    requires '-' !in a && '-' !in b && '-' !in c
    ensures |r| == 3 + |c| && '-' !in r
    ensures r[..2] == a[..2] && r[2] == b[0] && r[3..] == c
  {
    var r := a[..2] + b[..1] + c;
    forall i | 0 <= i < |r| ensures r[i] != '-' {
      if i < 2 { assert r[i] == a[i]; }
      else if i == 2 { assert r[i] == b[0]; }
      else { assert r[i] == c[i - 3]; }
    }
    r
  }

  /** A region written as three dash-free parts shortens to the parts' prefixes and the
      whole last part. */
  lemma ShortRegionOfParts(a: string, b: string, c: string)
    requires '-' !in a && '-' !in b && '-' !in c
    requires |a| >= 2 && |b| >= 1
    ensures ShortRegionDefined(a + "-" + b + "-" + c)
    ensures ShortRegion(a + "-" + b + "-" + c) == a[..2] + b[..1] + c
  {
    var parts := [a, b, c];
    assert Join(parts[2..], '-') == c;
    assert Join(parts[1..], '-') == b + "-" + c;
    assert Join(parts, '-') == a + "-" + b + "-" + c;
    SplitJoin(parts, '-');
  }

  /** A region with no dash is left as it is. */
  lemma ShortRegionUnchanged(region: string)
    requires '-' !in region
    ensures ShortRegion(region) == region
  {
    SplitJoin([region], '-');
  }

  /** `us-west-2` shortens to `usw2`. */
  lemma ShortRegionExample(region: string)
    requires region == "us-west-2"
    ensures ShortRegion(region) == "usw2"
  {
    assert region == "us" + "-" + "west" + "-" + "2";
    ShortRegionOfParts("us", "west", "2");
  }
}
