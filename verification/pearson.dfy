/** `Pearson.pearson_per_superpixel`: the same summary as `calc_metric`,
    with the score dictionary filled by a loop over the rows.
 */
module Pearson {
  import opened Wrappers
  import EnfMetric

  /** `pearson_per_superpixel` yields exactly what `calc_metric` yields,
      including its failures on fewer than two distinct scores. */
  method PearsonPerSuperpixel(m: seq<seq<real>>, corr: (seq<real>, seq<real>) -> real)
    returns (r: Result<EnfMetric.Metric>)
    requires EnfMetric.Rectangular(m)
    ensures r == EnfMetric.CalcMetric(m, corr)
  {
    var rep := EnfMetric.ColumnMeans(m);
    var d: seq<EnfMetric.Entry> := [];
    var i := 0;
    while i < |m|
      invariant 0 <= i <= |m|
      invariant d == EnfMetric.ScoresOf(m[..i], rep, corr)
    {
      assert m[..i + 1][..i] == m[..i];
      if !EnfMetric.Constant(m[i]) {
        d := EnfMetric.Put(d, corr(m[i], rep), m[i]);
      }
      i := i + 1;
    }
    assert m[..|m|] == m;
    r := EnfMetric.Summarize(d, corr);
  }
}
