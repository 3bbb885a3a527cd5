/** Strided parts of arrays, as FFTW's plans see their input and output. */
module Views {
  import opened Complex
  import Signals

  /** Part of an array: the elements from `off` on, `stride` apart, which are those at the positions `idx`. */
  datatype View = View(a: array<C>, off: int, stride: int, idx: seq<nat>)

  ghost predicate Ok(v: View) {
    && (forall t :: 0 <= t < |v.idx| ==> v.idx[t] < v.a.Length)
    && (forall s, t :: 0 <= s < t < |v.idx| ==> v.idx[s] != v.idx[t])
    && Steps(v)
  }

  ghost predicate Steps(v: View) {
    forall t {:trigger Address(v.off, v.stride, t)} :: 0 <= t < |v.idx| ==> v.idx[t] == Address(v.off, v.stride, t)
  }

  function Elems(v: View): (x: seq<C>)
    requires forall t :: 0 <= t < |v.idx| ==> v.idx[t] < v.a.Length
    reads v.a
    ensures |x| == |v.idx| && forall t :: 0 <= t < |v.idx| ==> x[t] == v.a[v.idx[t]]
  {
    seq(|v.idx|, t requires 0 <= t < |v.idx| reads v.a => v.a[v.idx[t]])
  }

  function Address(off: int, stride: int, t: nat): int {
    off + t * stride
  }

  /** `n` elements from `off` on, `stride` apart. */
  function Strided(a: array<C>, off: int, stride: int, n: nat): (v: View)
    requires forall t :: 0 <= t < n ==> Address(off, stride, t) >= 0
    ensures v.a == a && v.off == off && v.stride == stride
    ensures |v.idx| == n && forall t :: 0 <= t < n ==> v.idx[t] == Address(off, stride, t)
  {
    View(a, off, stride, seq(n, t requires 0 <= t < n => Address(off, stride, t)))
  }

  /** The place of an element in figures. */
  lemma StridedAt(a: array<C>, off: int, stride: int, n: nat, t: nat)
    requires t < n && forall t :: 0 <= t < n ==> Address(off, stride, t) >= 0
    ensures Strided(a, off, stride, n).idx[t] == off + t * stride
  {
  }

  lemma AddressInjective(off: int, stride: int, s: nat, t: nat)
    requires stride != 0 && s != t
    ensures Address(off, stride, s) != Address(off, stride, t)
  {
    assert (t - s) * stride == Address(off, stride, t) - Address(off, stride, s);
  }

  lemma StridedOk(a: array<C>, off: int, stride: int, n: nat)
    requires (stride != 0 || n <= 1) && forall t :: 0 <= t < n ==> 0 <= Address(off, stride, t) < a.Length
    ensures Ok(Strided(a, off, stride, n))
  {
    hide Address;
    forall s, t | 0 <= s < t < n ensures Address(off, stride, s) != Address(off, stride, t) {
      AddressInjective(off, stride, s, t);
    }
  }

  /** Where row `q`, column `p` of a table with `cnt` columns stands. */
  function Place(cnt: nat, q: nat, p: nat): nat {
    q * cnt + p
  }

  lemma InTableAt(cnt: nat, len: nat, q: nat, p: nat)
    requires q < len && p < cnt
    ensures Place(cnt, q, p) < cnt * len
  {
    Signals.MulMono(q + 1, len, cnt);
  }

  lemma InTable(cnt: nat, len: nat)
    ensures forall q: nat, p: nat :: q < len && p < cnt ==> Place(cnt, q, p) < cnt * len
  {
    hide Place;
    forall q: nat, p: nat | q < len && p < cnt ensures Place(cnt, q, p) < cnt * len {
      InTableAt(cnt, len, q, p);
    }
  }

  /**
   * Element `q·cnt + p` of the view for each q: a column of a table with `cnt` columns and `len` rows. Its stride is
   * the one mkplan gives a child.
   */
  function Column(v: View, cnt: nat, len: nat, p: nat): (c: View)
    requires |v.idx| == cnt * len && p < cnt
    ensures c.a == v.a && c.off == Address(v.off, v.stride, p) && c.stride == cnt * v.stride && |c.idx| == len
    ensures forall q :: 0 <= q < len ==> Place(cnt, q, p) < |v.idx| && c.idx[q] == v.idx[Place(cnt, q, p)]
  {
    hide Place;
    InTable(cnt, len);
    View(v.a, Address(v.off, v.stride, p), cnt * v.stride,
      seq(len, q requires 0 <= q < len => v.idx[Place(cnt, q, p)]))
  }

  /** Element `p·len + q` of the view for each q: a row of a table with `cnt` rows of `len`. */
  function Segment(v: View, cnt: nat, len: nat, p: nat): (c: View)
    requires |v.idx| == cnt * len && p < cnt
    ensures c.a == v.a && c.off == Address(v.off, len * v.stride, p) && c.stride == v.stride && |c.idx| == len
    ensures forall q :: 0 <= q < len ==> Place(len, p, q) < |v.idx| && c.idx[q] == v.idx[Place(len, p, q)]
  {
    hide Place;
    InTable(len, cnt);
    View(v.a, Address(v.off, len * v.stride, p), v.stride,
      seq(len, q requires 0 <= q < len => v.idx[Place(len, p, q)]))
  }

  /** Different places in the table are different positions. */
  lemma PlaceInjective(cnt: nat, q: nat, p: nat, q': nat, p': nat)
    requires p < cnt && p' < cnt && Place(cnt, q, p) == Place(cnt, q', p')
    ensures q == q' && p == p'
  {
    Signals.DivUnique(Place(cnt, q, p), cnt, q, p);
    Signals.DivUnique(Place(cnt, q', p'), cnt, q', p');
  }

  /** Every position is a place in the table. */
  lemma FindPlace(cnt: nat, len: nat, t: nat) returns (q: nat, p: nat)
    requires t < cnt * len
    ensures q < len && p < cnt && t == Place(cnt, q, p)
  {
    q, p := t / cnt, t % cnt;
    if q >= len { Signals.MulMono(len, q, cnt); }
  }

  /** Element `q` of part `p`: a column steps `cnt` strides, a segment one. */
  lemma AddressOfPlace(off: int, stride: int, cnt: nat, q: nat, p: nat)
    ensures Address(off, stride, Place(cnt, q, p)) == Address(Address(off, stride, p), cnt * stride, q)
    ensures Address(off, stride, Place(cnt, q, p)) == Address(Address(off, cnt * stride, q), stride, p)
  {
    assert (q * cnt + p) * stride == q * (cnt * stride) + p * stride;
  }

  lemma ColumnSteps(v: View, cnt: nat, len: nat, p: nat)
    requires Ok(v) && |v.idx| == cnt * len && p < cnt
    ensures Steps(Column(v, cnt, len, p))
  {
    hide Place, Address;
    var c := Column(v, cnt, len, p);
    forall q | 0 <= q < len ensures c.idx[q] == Address(c.off, c.stride, q) {
      AddressOfPlace(v.off, v.stride, cnt, q, p);
      assert c.idx[q] == v.idx[Place(cnt, q, p)];
    }
  }

  lemma SegmentSteps(v: View, cnt: nat, len: nat, p: nat)
    requires Ok(v) && |v.idx| == cnt * len && p < cnt
    ensures Steps(Segment(v, cnt, len, p))
  {
    hide Place, Address;
    var c := Segment(v, cnt, len, p);
    forall q | 0 <= q < len ensures c.idx[q] == Address(c.off, c.stride, q) {
      AddressOfPlace(v.off, v.stride, len, p, q);
      assert c.idx[q] == v.idx[Place(len, p, q)];
    }
  }

  function Columns(v: View, cnt: nat, len: nat): (vs: seq<View>)
    requires |v.idx| == cnt * len
    ensures |vs| == cnt && forall p :: 0 <= p < cnt ==> vs[p] == Column(v, cnt, len, p)
  {
    seq(cnt, p requires 0 <= p < cnt => Column(v, cnt, len, p))
  }

  function Segments(v: View, cnt: nat, len: nat): (vs: seq<View>)
    requires |v.idx| == cnt * len
    ensures |vs| == cnt && forall p :: 0 <= p < cnt ==> vs[p] == Segment(v, cnt, len, p)
  {
    seq(cnt, p requires 0 <= p < cnt => Segment(v, cnt, len, p))
  }

  /** Views of one array, each of `n` elements, that do not overlap. */
  ghost predicate Apart(vs: seq<View>, a: array<C>, n: nat) {
    && (forall p :: 0 <= p < |vs| ==> vs[p].a == a && |vs[p].idx| == n && Ok(vs[p]))
    && (forall p, p' :: 0 <= p < p' < |vs| ==> Disjoint(vs[p], vs[p']))
  }

  ghost predicate Disjoint(v: View, w: View) {
    forall i, j :: 0 <= i < |v.idx| && 0 <= j < |w.idx| ==> v.idx[i] != w.idx[j]
  }

  ghost predicate Covered(vs: seq<View>, i: int) {
    exists p :: 0 <= p < |vs| && i in vs[p].idx
  }

  lemma ColumnsApart(v: View, cnt: nat, len: nat)
    requires Ok(v) && |v.idx| == cnt * len
    ensures Apart(Columns(v, cnt, len), v.a, len)
    ensures forall i :: Covered(Columns(v, cnt, len), i) ==> i in v.idx
  {
    hide Place;
    var vs := Columns(v, cnt, len);
    forall p | 0 <= p < cnt ensures Steps(vs[p]) { ColumnSteps(v, cnt, len, p); }
    forall p, q, p', q' | 0 <= p < cnt && 0 <= p' < cnt && 0 <= q < len && 0 <= q' < len && (p != p' || q != q')
      ensures vs[p].idx[q] != vs[p'].idx[q']
    {
      if Place(cnt, q, p) == Place(cnt, q', p') { PlaceInjective(cnt, q, p, q', p'); }
    }
  }

  lemma SegmentsApart(v: View, cnt: nat, len: nat)
    requires Ok(v) && |v.idx| == cnt * len
    ensures Apart(Segments(v, cnt, len), v.a, len)
    ensures forall i :: Covered(Segments(v, cnt, len), i) ==> i in v.idx
  {
    hide Place;
    var vs := Segments(v, cnt, len);
    forall p | 0 <= p < cnt ensures Steps(vs[p]) { SegmentSteps(v, cnt, len, p); }
    forall p, q, p', q' | 0 <= p < cnt && 0 <= p' < cnt && 0 <= q < len && 0 <= q' < len && (p != p' || q != q')
      ensures vs[p].idx[q] != vs[p'].idx[q']
    {
      if Place(len, p, q) == Place(len, p', q') { PlaceInjective(len, p, q, p', q'); }
    }
  }

  /** The whole of an array. */
  function Whole(a: array<C>): (v: View)
    ensures v.a == a && v.off == 0 && v.stride == 1
    ensures |v.idx| == a.Length && forall t :: 0 <= t < a.Length ==> v.idx[t] == t
  {
    View(a, 0, 1, seq(a.Length, t requires 0 <= t < a.Length => t))
  }
}
