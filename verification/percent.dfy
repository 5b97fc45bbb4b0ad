/** The `part * 100.0 / whole` ratio that the task manager and the quiz game print. */
module Percent {

  /** `part` out of `whole` as a percentage in [0, 100]: 0 exactly when the
      part is empty and 100 exactly when it is the whole. */
  function Percentage(part: nat, whole: nat): (r: real)
    requires part <= whole && whole > 0
    ensures r * (whole as real) == part as real * 100.0
    ensures 0.0 <= r <= 100.0
    ensures r == 0.0 <==> part == 0
    ensures r == 100.0 <==> part == whole
  {
    var p, w := part as real, whole as real;
    var r := (p * 100.0) / w;
    assert r * w == p * 100.0;
    RatioBounds(p, w, r);
    r
  }

  lemma RatioBounds(p: real, w: real, r: real)
    requires 0.0 <= p <= w && w > 0.0 && r * w == p * 100.0
    ensures 0.0 <= r <= 100.0
    ensures r == 0.0 <==> p == 0.0
    ensures r == 100.0 <==> p == w
  {
    if r == 100.0 {
      assert 100.0 * w == p * 100.0;
    }
    if p == w {
      assert (r - 100.0) * w == 0.0;
    }
  }
}
