/** util/util.go: the in-place min-max rescalers used by the energy
    computation, and the two lookups over the configured handlers and the
    message-dependency index. */
module Util {
  import opened Common

  /** `config.Handler`: the method a handler is configured for, its module
      and its symbol. */
  datatype Handler = Handler(rpc: string, moduleName: string, handlerName: string)

  /** The smallest element, as the first scan of the rescalers finds it. */
  function SeqMin(s: seq<int>): (m: int)
    requires |s| > 0
    ensures exists i :: 0 <= i < |s| && s[i] == m
    ensures forall i :: 0 <= i < |s| ==> m <= s[i]
  {
    if |s| == 1 then s[0]
    else
      var m := SeqMin(s[..|s| - 1]);
      assert forall i :: 0 <= i < |s| - 1 ==> s[..|s| - 1][i] == s[i];
      if s[|s| - 1] < m then s[|s| - 1] else m
  }

  /** The largest element, as the first scan of the rescalers finds it. */
  function SeqMax(s: seq<int>): (m: int)
    requires |s| > 0
    ensures exists i :: 0 <= i < |s| && s[i] == m
    ensures forall i :: 0 <= i < |s| ==> s[i] <= m
  {
    if |s| == 1 then s[0]
    else
      var m := SeqMax(s[..|s| - 1]);
      assert forall i :: 0 <= i < |s| - 1 ==> s[..|s| - 1][i] == s[i];
      if s[|s| - 1] > m then s[|s| - 1] else m
  }

  /** The rounding step of the second loop of the rescalers, with Go's
      truncating `/`: `(zsrc*target_scale*2 + source_scale) / source_scale / 2`. */
  function Round(zsrc: int, targetScale: int, sourceScale: int): int
    requires sourceScale != 0
  {
    GoDiv(GoDiv(zsrc * targetScale * 2 + sourceScale, sourceScale), 2)
  }

  /** One element after the second loop of a rescaler that found
      `sourceMin` and `source_scale` = sourceMax - sourceMin. */
  function ScaleOne(x: int, sourceMin: int, sourceScale: int, scaleMin: int, targetScale: int): int
    requires sourceScale != 0
  {
    Round(x - sourceMin, targetScale, sourceScale) + scaleMin
  }

  /** The whole array after a rescaler that found `sourceMin` and
      `sourceMax`: unchanged when they are equal. */
  function Rescaled(s: seq<int>, sourceMin: int, sourceMax: int, scaleMin: int, scaleMax: int): seq<int>
  {
    if sourceMin == sourceMax then s
    else seq(|s|, i requires 0 <= i < |s| => ScaleOne(s[i], sourceMin, sourceMax - sourceMin, scaleMin, scaleMax - scaleMin))
  }

  /** `ScaleIntegers`: the smallest element is the source minimum. */
  function ScaleIntegersOf(s: seq<int>, scaleMin: int, scaleMax: int): seq<int>
    requires |s| > 0
  {
    Rescaled(s, SeqMin(s), SeqMax(s), scaleMin, scaleMax)
  }

  /** `ScaleIntegersReverse`: the roles are swapped, the largest element
      is `source_min` and the smallest `source_max`. */
  function ScaleIntegersReverseOf(s: seq<int>, scaleMin: int, scaleMax: int): seq<int>
    requires |s| > 0
  {
    Rescaled(s, SeqMax(s), SeqMin(s), scaleMin, scaleMax)
  }

  /** The second loop, which both rescalers share: each element x becomes
      scaleMin + round((x - source_min) * target_scale / source_scale),
      rounded half up. */
  method RescaleInPlace(a: array<int>, sourceMin: int, sourceMax: int, scaleMin: int, scaleMax: int)
    requires sourceMin != sourceMax
    modifies a
    ensures a[..] == Rescaled(old(a[..]), sourceMin, sourceMax, scaleMin, scaleMax)
  {
    var sourceScale := sourceMax - sourceMin;
    var targetScale := scaleMax - scaleMin;
    for i := 0 to a.Length
      invariant forall k :: 0 <= k < i ==> a[k] == ScaleOne(old(a[k]), sourceMin, sourceScale, scaleMin, targetScale)
      invariant forall k :: i <= k < a.Length ==> a[k] == old(a[k])
    {
      var zsrc := a[i] - sourceMin;
      var scaled := Round(zsrc, targetScale, sourceScale);
      a[i] := scaled + scaleMin;
    }
  }

  /** `ScaleIntegers(array, scaleMin, scaleMax)`, in place. The array must
      not be empty (`array[0]` is read). */
  method ScaleIntegers(a: array<int>, scaleMin: int, scaleMax: int)
    requires a.Length > 0
    modifies a
    ensures a[..] == ScaleIntegersOf(old(a[..]), scaleMin, scaleMax)
  {
    var nelems := a.Length;
    var sourceMin := a[0];
    var sourceMax := a[0];
    for i := 1 to nelems
      invariant sourceMin == SeqMin(a[..i]) && sourceMax == SeqMax(a[..i])
    {
      assert a[..i + 1][..i] == a[..i];
      if a[i] < sourceMin {
        sourceMin := a[i];
      }
      if a[i] > sourceMax {
        sourceMax := a[i];
      }
    }
    assert a[..nelems] == a[..];
    if sourceMin == sourceMax {
      return;
    }
    RescaleInPlace(a, sourceMin, sourceMax, scaleMin, scaleMax);
  }

  /** `ScaleIntegersReverse(array, scaleMin, scaleMax)`, in place. */
  method ScaleIntegersReverse(a: array<int>, scaleMin: int, scaleMax: int)
    requires a.Length > 0
    modifies a
    ensures a[..] == ScaleIntegersReverseOf(old(a[..]), scaleMin, scaleMax)
  {
    var nelems := a.Length;
    var sourceMin := a[0];
    var sourceMax := a[0];
    for i := 1 to nelems
      invariant sourceMax == SeqMin(a[..i]) && sourceMin == SeqMax(a[..i])
    {
      assert a[..i + 1][..i] == a[..i];
      if a[i] < sourceMax {
        sourceMax := a[i];
      }
      if a[i] > sourceMin {
        sourceMin := a[i];
      }
    }
    assert a[..nelems] == a[..];
    if sourceMin == sourceMax {
      return;
    }
    RescaleInPlace(a, sourceMin, sourceMax, scaleMin, scaleMax);
  }

  /** Both rescalers keep the length, and leave an array whose elements are
      all equal as it was. */
  lemma ConstantUnchanged(s: seq<int>, scaleMin: int, scaleMax: int)
    requires |s| > 0
    ensures |ScaleIntegersOf(s, scaleMin, scaleMax)| == |ScaleIntegersReverseOf(s, scaleMin, scaleMax)| == |s|
    ensures (forall i :: 0 <= i < |s| ==> s[i] == s[0]) ==>
      ScaleIntegersOf(s, scaleMin, scaleMax) == s && ScaleIntegersReverseOf(s, scaleMin, scaleMax) == s
  {
    if forall i :: 0 <= i < |s| ==> s[i] == s[0] {
      var lo, hi := SeqMin(s), SeqMax(s);
      var i :| 0 <= i < |s| && s[i] == lo;
      var j :| 0 <= j < |s| && s[j] == hi;
      assert lo == hi;
    }
  }

  lemma MulMonotone(a: int, b: int, d: int)
    requires a <= b && d >= 0
    ensures a * d <= b * d
  {
    assert b * d - a * d == (b - a) * d;
  }

  lemma MulStep(a: int, b: int, d: int)
    requires a < b && d >= 0
    ensures a * d + d <= b * d
  {
    MulMonotone(a + 1, b, d);
    assert (a + 1) * d == a * d + d;
  }

  /** Round half up: with `d` > 0 source units mapped onto `t` >= 0 target
      units, an element `z` >= 0 units above the source origin lands on the
      integer nearest to z*t/d, and on the upper one at a tie. */
  lemma NearestHalfUp(z: int, t: int, d: int)
    requires z >= 0 && t >= 0 && d > 0
    ensures var q := Round(z, t, d);
      2 * (q * d) - d <= 2 * (z * t) < 2 * (q * d) + d
  {
    var zt := z * t;
    assert zt >= 0 by { MulMonotone(0, z, t); }
    var n := zt * 2 + d;
    assert z * t * 2 + d == n;
    var q1 := n / d;
    var q := q1 / 2;
    assert Round(z, t, d) == q;
    assert q1 * d <= n < q1 * d + d;
    assert q1 == 2 * q || q1 == 2 * q + 1;
    assert (2 * q) * d == 2 * (q * d);
    assert (2 * q + 1) * d == 2 * (q * d) + d;
  }

  /** Go's truncating `/` of two non-positive numbers: rounding measured
      down from the other end gives the same value. */
  lemma RoundNegated(z: int, t: int, d: int)
    requires z >= 0 && t >= 0 && d > 0
    ensures Round(-z, t, -d) == Round(z, t, d)
  {
    var zt := z * t;
    assert zt >= 0 by { MulMonotone(0, z, t); }
    assert (-z) * t * 2 + (-d) == -(zt * 2 + d);
    assert z * t * 2 + d == zt * 2 + d;
  }

  /** The rounded value stays within [0, t], grows with z, and the two ends
      0 and d of the source range land on 0 and t. */
  lemma RoundBounds(z: int, z': int, t: int, d: int)
    requires 0 <= z <= z' <= d && t >= 0 && d > 0
    ensures 0 <= Round(z, t, d) <= Round(z', t, d) <= t
    ensures Round(0, t, d) == 0 && Round(d, t, d) == t
  {
    var q, q' := Round(z, t, d), Round(z', t, d);
    NearestHalfUp(z, t, d);
    NearestHalfUp(z', t, d);
    MulMonotone(0, z, t);
    MulMonotone(z, z', t);
    MulMonotone(z', d, t);
    assert d * t == t * d;
    if q < 0 {
      MulStep(q, 0, d);
      assert false;
    }
    if q > q' {
      MulStep(q', q, d);
      assert false;
    }
    if q' > t {
      MulStep(t, q', d);
      assert false;
    }
    NearestHalfUp(0, t, d);
    NearestHalfUp(d, t, d);
    var q0, qd := Round(0, t, d), Round(d, t, d);
    if q0 != 0 {
      if q0 > 0 {
        MulStep(0, q0, d);
      } else {
        MulStep(q0, 0, d);
      }
      assert false;
    }
    if qd != t {
      if qd > t {
        MulStep(t, qd, d);
      } else {
        MulStep(qd, t, d);
      }
      assert false;
    }
  }

  /** One element of `ScaleIntegers`' result: the rounding of its distance
      from the minimum. */
  lemma ScaleIntegersAt(s: seq<int>, scaleMin: int, scaleMax: int, i: int)
    requires 0 <= i < |s| && SeqMin(s) != SeqMax(s)
    ensures |ScaleIntegersOf(s, scaleMin, scaleMax)| == |s|
    ensures ScaleIntegersOf(s, scaleMin, scaleMax)[i] ==
      Round(s[i] - SeqMin(s), scaleMax - scaleMin, SeqMax(s) - SeqMin(s)) + scaleMin
  {
  }

  /** One element of `ScaleIntegersReverse`' result: the rounding of its
      distance from the maximum, Go's truncating `/` of two non-positive
      numbers giving the same value. */
  lemma ScaleIntegersReverseAt(s: seq<int>, scaleMin: int, scaleMax: int, i: int)
    requires 0 <= i < |s| && SeqMin(s) != SeqMax(s) && scaleMin <= scaleMax
    ensures |ScaleIntegersReverseOf(s, scaleMin, scaleMax)| == |s|
    ensures ScaleIntegersReverseOf(s, scaleMin, scaleMax)[i] ==
      Round(SeqMax(s) - s[i], scaleMax - scaleMin, SeqMax(s) - SeqMin(s)) + scaleMin
  {
    var lo, hi := SeqMin(s), SeqMax(s);
    RoundNegated(hi - s[i], scaleMax - scaleMin, hi - lo);
    assert s[i] - hi == -(hi - s[i]) && lo - hi == -(hi - lo);
  }

  /** `ScaleIntegers` with scaleMin <= scaleMax: every result lies in
      [scaleMin, scaleMax], the minimum becomes scaleMin and the maximum
      scaleMax. */
  lemma ScaleIntegersBounds(s: seq<int>, scaleMin: int, scaleMax: int, i: int)
    requires 0 <= i < |s| && scaleMin <= scaleMax && SeqMin(s) != SeqMax(s)
    ensures var r := ScaleIntegersOf(s, scaleMin, scaleMax);
      |r| == |s| && scaleMin <= r[i] <= scaleMax &&
      (s[i] == SeqMin(s) ==> r[i] == scaleMin) &&
      (s[i] == SeqMax(s) ==> r[i] == scaleMax)
  {
    var lo, hi := SeqMin(s), SeqMax(s);
    ScaleIntegersAt(s, scaleMin, scaleMax, i);
    RoundBounds(s[i] - lo, hi - lo, scaleMax - scaleMin, hi - lo);
  }

  /** Rescaling from the source minimum keeps the order of two elements
      of the source range. */
  lemma RescaledMonotone(s: seq<int>, lo: int, hi: int, scaleMin: int, scaleMax: int, i: int, j: int)
    requires 0 <= i < |s| && 0 <= j < |s| && scaleMin <= scaleMax && lo < hi
    requires lo <= s[i] <= s[j] <= hi
    ensures var r := Rescaled(s, lo, hi, scaleMin, scaleMax);
      |r| == |s| && r[i] <= r[j]
  {
    RoundBounds(s[i] - lo, s[j] - lo, scaleMax - scaleMin, hi - lo);
  }

  /** Rescaling from the source maximum reverses the order of two elements
      of the source range. */
  lemma RescaledAntitone(s: seq<int>, lo: int, hi: int, scaleMin: int, scaleMax: int, i: int, j: int)
    requires 0 <= i < |s| && 0 <= j < |s| && scaleMin <= scaleMax && lo < hi
    requires lo <= s[i] <= s[j] <= hi
    ensures var r := Rescaled(s, hi, lo, scaleMin, scaleMax);
      |r| == |s| && r[j] <= r[i]
  {
    var t, d := scaleMax - scaleMin, hi - lo;
    RoundNegated(hi - s[i], t, d);
    RoundNegated(hi - s[j], t, d);
    assert s[i] - hi == -(hi - s[i]) && s[j] - hi == -(hi - s[j]) && lo - hi == -d;
    RoundBounds(hi - s[j], hi - s[i], t, d);
  }

  /** `ScaleIntegers` keeps the order of elements. */
  lemma ScaleIntegersMonotone(s: seq<int>, scaleMin: int, scaleMax: int, i: int, j: int)
    requires 0 <= i < |s| && 0 <= j < |s| && scaleMin <= scaleMax && s[i] <= s[j]
    ensures var r := ScaleIntegersOf(s, scaleMin, scaleMax);
      |r| == |s| && r[i] <= r[j]
  {
    var lo, hi := SeqMin(s), SeqMax(s);
    if lo != hi {
      assert lo <= s[i] && s[j] <= hi;
      RescaledMonotone(s, lo, hi, scaleMin, scaleMax, i, j);
    } else {
      ConstantUnchanged(s, scaleMin, scaleMax);
    }
  }

  /** `ScaleIntegersReverse` with scaleMin <= scaleMax: every result lies
      in [scaleMin, scaleMax], the maximum becomes scaleMin and the minimum
      scaleMax. */
  lemma ScaleIntegersReverseBounds(s: seq<int>, scaleMin: int, scaleMax: int, i: int)
    requires 0 <= i < |s| && scaleMin <= scaleMax && SeqMin(s) != SeqMax(s)
    ensures var r := ScaleIntegersReverseOf(s, scaleMin, scaleMax);
      |r| == |s| && scaleMin <= r[i] <= scaleMax &&
      (s[i] == SeqMax(s) ==> r[i] == scaleMin) &&
      (s[i] == SeqMin(s) ==> r[i] == scaleMax)
  {
    var lo, hi := SeqMin(s), SeqMax(s);
    ScaleIntegersReverseAt(s, scaleMin, scaleMax, i);
    RoundBounds(hi - s[i], hi - lo, scaleMax - scaleMin, hi - lo);
  }

  /** `ScaleIntegersReverse` reverses the order of elements. */
  lemma ScaleIntegersReverseAntitone(s: seq<int>, scaleMin: int, scaleMax: int, i: int, j: int)
    requires 0 <= i < |s| && 0 <= j < |s| && scaleMin <= scaleMax && s[i] <= s[j]
    ensures var r := ScaleIntegersReverseOf(s, scaleMin, scaleMax);
      |r| == |s| && r[j] <= r[i]
  {
    var lo, hi := SeqMin(s), SeqMax(s);
    if lo != hi {
      assert lo <= s[i] && s[j] <= hi;
      RescaledAntitone(s, lo, hi, scaleMin, scaleMax, i, j);
    } else {
      ConstantUnchanged(s, scaleMin, scaleMax);
    }
  }

  /** `GetMethodHandler(method, handlers)`: the position of the first
      handler configured for `rpc`, or None (Go's nil). */
  method GetMethodHandler(rpc: string, handlers: seq<Handler>) returns (r: Option<nat>)
    ensures r.None? <==> forall k :: 0 <= k < |handlers| ==> handlers[k].rpc != rpc
    ensures r.Some? ==> r.value < |handlers| && handlers[r.value].rpc == rpc &&
                        forall k :: 0 <= k < r.value ==> handlers[k].rpc != rpc
  {
    for i := 0 to |handlers|
      invariant forall k :: 0 <= k < i ==> handlers[k].rpc != rpc
    {
      if handlers[i].rpc == rpc {
        return Some(i);
      }
    }
    return None;
  }

  /** `GetMapKeyByValue(data, val)`: Go's `range` over a map visits the
      keys in an unspecified order, so the key returned is any key mapped to
      `val`; "" when there is none. */
  method GetMapKeyByValue(data: map<string, int>, val: int) returns (key: string)
    ensures key != "" ==> key in data && data[key] == val
    ensures (exists k :: k in data && data[k] == val) ==> key in data && data[key] == val
    ensures (forall k :: k in data ==> data[k] != val) ==> key == ""
  {
    var unvisited := data.Keys;
    while unvisited != {}
      invariant unvisited <= data.Keys
      invariant forall k :: k in data && k !in unvisited ==> data[k] != val
      decreases |unvisited|
    {
      var k :| k in unvisited;
      if data[k] == val {
        return k;
      }
      unvisited := unvisited - {k};
    }
    return "";
  }
}
