/**
 * `ProgressManager`, its child views and `VoidProgressManager`. A manager
 * and every child taken from it report into one shared state holding the
 * progress and text callback registries; a child created with `(lo, hi)`
 * rescales a progress value `p` to `lo + p·(hi − lo)` of its parent's range.
 * The void manager and its children deliver nothing.
 */
module ProgressManagers {
  import opened Callbacks

  /** The state shared by a manager and all its children. */
  datatype ProgressState = ProgressState(progress: Registry, text: Registry)

  /**
   * A handle on the shared state: a real manager whose progress 0..1 covers
   * `[lo, hi]` of the root's range, or the void manager.
   */
  datatype ProgressView = Ranged(lo: real, hi: real) | VoidView

  /** One call of a progress callback, and one call of a text callback. */
  datatype ProgressDelivery = ProgressDelivery(callback: CallbackId, value: real)
  datatype TextDelivery = TextDelivery(callback: CallbackId, text: string)

  /** `ProgressManager()`: empty registries, covering the whole range. */
  function NewProgressManager(): (r: (ProgressState, ProgressView))
    ensures r.0.progress.entries == [] && r.0.text.entries == []
    ensures ValidRegistry(r.0.progress) && ValidRegistry(r.0.text)
    ensures r.1 == Ranged(0.0, 1.0)
  {
    (ProgressState(EmptyRegistry(), EmptyRegistry()), Ranged(0.0, 1.0))
  }

  /** Where progress `p` of a real view lands in the root's range. */
  function Rescale(v: ProgressView, p: real): real
    requires v.Ranged?
  {
    v.lo + p * (v.hi - v.lo)
  }

  /** The root range scaled by `p` of the view, for a root handle, is `p` itself. */
  lemma RootRescale(p: real)
    ensures Rescale(Ranged(0.0, 1.0), p) == p
  {
  }

  /**
   * `get_child(lo, hi)`: a view whose progress `p` is reported as progress
   * `lo + p·(hi − lo)` of this view. A child of the void manager is void.
   */
  function GetChild(v: ProgressView, lo: real, hi: real): (c: ProgressView)
    ensures v.VoidView? <==> c.VoidView?
    ensures v.Ranged? ==> forall p: real :: Rescale(c, p) == Rescale(v, lo + p * (hi - lo))
  {
    match v
    case VoidView => VoidView
    case Ranged(a, b) =>
      var c := Ranged(a + lo * (b - a), a + hi * (b - a));
      assert forall p: real :: Rescale(c, p) == Rescale(v, lo + p * (hi - lo)) by {
        forall p: real ensures Rescale(c, p) == Rescale(v, lo + p * (hi - lo)) {
          ChildDistributes(a, b, lo, hi, p);
        }
      }
      c
  }

  lemma ChildDistributes(a: real, b: real, lo: real, hi: real, p: real)
    ensures (a + lo * (b - a)) + p * ((a + hi * (b - a)) - (a + lo * (b - a))) == a + (lo + p * (hi - lo)) * (b - a)
  {
    calc {
      (a + lo * (b - a)) + p * ((a + hi * (b - a)) - (a + lo * (b - a)));
      a + lo * (b - a) + p * ((hi - lo) * (b - a));
      a + lo * (b - a) + (p * (hi - lo)) * (b - a);
      a + (lo + p * (hi - lo)) * (b - a);
    }
  }

  /** A range within `[0, 1]`. */
  predicate InUnit(v: ProgressView)
  {
    v.Ranged? ==> 0.0 <= v.lo <= v.hi <= 1.0
  }

  /** Progress in `[0, 1]` of a view inside the unit range lands inside that view's range. */
  lemma RescaleInRange(v: ProgressView, p: real)
    requires v.Ranged? && v.lo <= v.hi && 0.0 <= p <= 1.0
    ensures v.lo <= Rescale(v, p) <= v.hi
  {
    var w := v.hi - v.lo;
    MulMonotone(p, 1.0, w);
    MulMonotone(0.0, p, w);
    assert 0.0 * w == 0.0 && 1.0 * w == w;
    assert Rescale(v, p) == v.lo + p * w;
  }

  lemma MulMonotone(x: real, y: real, k: real)
    requires x <= y && 0.0 <= k
    ensures x * k <= y * k
  {
  }

  /** A child with `0 <= lo <= hi <= 1` of a view inside the unit range stays inside its parent's range. */
  lemma ChildInRange(v: ProgressView, lo: real, hi: real)
    requires InUnit(v) && 0.0 <= lo <= hi <= 1.0
    ensures InUnit(GetChild(v, lo, hi))
    ensures v.Ranged? ==> v.lo <= GetChild(v, lo, hi).lo && GetChild(v, lo, hi).hi <= v.hi
  {
    if v.Ranged? {
      RescaleInRange(v, lo);
      RescaleInRange(v, hi);
      var c := GetChild(v, lo, hi);
      assert c.lo == Rescale(v, lo) && c.hi == Rescale(v, hi);
      RescaleMonotone(v, lo, hi);
    }
  }

  lemma RescaleMonotone(v: ProgressView, p: real, q: real)
    requires v.Ranged? && v.lo <= v.hi && p <= q
    ensures Rescale(v, p) <= Rescale(v, q)
  {
    MulMonotone(p, q, v.hi - v.lo);
  }

  /** A child of a child is the child of the composed sub-range. */
  lemma ChildOfChild(v: ProgressView, a: real, b: real, c: real, d: real)
    ensures GetChild(GetChild(v, a, b), c, d) == GetChild(v, a + c * (b - a), a + d * (b - a))
  {
    if v.Ranged? {
      var w := GetChild(v, a, b);
      assert GetChild(w, c, d).lo == Rescale(w, c) == Rescale(v, a + c * (b - a));
      assert GetChild(w, c, d).hi == Rescale(w, d) == Rescale(v, a + d * (b - a));
    }
  }

  // ---- Registration and delivery ----

  /** `register_progress_callback(f)`: on the shared registry; the void manager stores nothing. */
  function RegisterProgressCallback(s: ProgressState, v: ProgressView, f: CallbackId): (r: (ProgressState, Token))
    ensures v.VoidView? ==> r.0 == s
    ensures v.Ranged? ==> r.0.text == s.text && r.0.progress.entries == s.progress.entries + [Registration(r.1, f)]
    ensures v.Ranged? && ValidRegistry(s.progress) ==> ValidRegistry(r.0.progress) && r.1 !in Tokens(s.progress.entries)
  {
    if v.VoidView? then (s, 0)
    else
      var (progress, token) := Add(s.progress, f);
      (s.(progress := progress), token)
  }

  /** `register_progress_text_callback(f)`. */
  function RegisterTextCallback(s: ProgressState, v: ProgressView, f: CallbackId): (r: (ProgressState, Token))
    ensures v.VoidView? ==> r.0 == s
    ensures v.Ranged? ==> r.0.progress == s.progress && r.0.text.entries == s.text.entries + [Registration(r.1, f)]
    ensures v.Ranged? && ValidRegistry(s.text) ==> ValidRegistry(r.0.text) && r.1 !in Tokens(s.text.entries)
  {
    if v.VoidView? then (s, 0)
    else
      var (text, token) := Add(s.text, f);
      (s.(text := text), token)
  }

  /** `unregister_progress_callback(token)`. */
  function UnregisterProgressCallback(s: ProgressState, v: ProgressView, token: Token): (r: ProgressState)
    ensures v.VoidView? ==> r == s
    ensures v.Ranged? ==> r.text == s.text
    ensures v.Ranged? ==> forall x :: x in r.progress.entries <==> x in s.progress.entries && x.token != token
    ensures ValidRegistry(s.progress) ==> ValidRegistry(r.progress)
  {
    if v.VoidView? then s else s.(progress := Remove(s.progress, token))
  }

  /** `unregister_progress_text_callback(token)`. */
  function UnregisterTextCallback(s: ProgressState, v: ProgressView, token: Token): (r: ProgressState)
    ensures v.VoidView? ==> r == s
    ensures v.Ranged? ==> r.progress == s.progress
    ensures v.Ranged? ==> forall x :: x in r.text.entries <==> x in s.text.entries && x.token != token
    ensures ValidRegistry(s.text) ==> ValidRegistry(r.text)
  {
    if v.VoidView? then s else s.(text := Remove(s.text, token))
  }

  /**
   * `update_progress(p)` on a view: every registered progress callback, in
   * registration order, receives `p` rescaled into the root's range.
   */
  function UpdateProgress(s: ProgressState, v: ProgressView, p: real): (d: seq<ProgressDelivery>)
    ensures v.VoidView? ==> d == []
    ensures v.Ranged? ==> |d| == |s.progress.entries|
    ensures v.Ranged? ==> forall i :: 0 <= i < |d| ==> d[i] == ProgressDelivery(s.progress.entries[i].callback, Rescale(v, p))
  {
    if v.VoidView? then []
    else
      var entries := s.progress.entries;
      seq(|entries|, i requires 0 <= i < |entries| => ProgressDelivery(entries[i].callback, Rescale(v, p)))
  }

  /** `update_progress_text(t)` on a view: the text reaches every text callback unchanged. */
  function UpdateProgressText(s: ProgressState, v: ProgressView, t: string): (d: seq<TextDelivery>)
    ensures v.VoidView? ==> d == []
    ensures v.Ranged? ==> |d| == |s.text.entries|
    ensures v.Ranged? ==> forall i :: 0 <= i < |d| ==> d[i] == TextDelivery(s.text.entries[i].callback, t)
  {
    if v.VoidView? then []
    else
      var entries := s.text.entries;
      seq(|entries|, i requires 0 <= i < |entries| => TextDelivery(entries[i].callback, t))
  }

  /**
   * A child update reaches the callbacks as the parent's update of the
   * rescaled value would, and a child's text reaches them unchanged.
   */
  lemma ChildForwards(s: ProgressState, v: ProgressView, lo: real, hi: real, p: real, t: string)
    ensures UpdateProgress(s, GetChild(v, lo, hi), p) ==
            if v.VoidView? then [] else UpdateProgress(s, v, lo + p * (hi - lo))
    ensures UpdateProgressText(s, GetChild(v, lo, hi), t) == UpdateProgressText(s, v, t)
  {
  }

  /** Unregistering by the token just issued leaves the deliveries as they were before registering. */
  lemma RegisterThenUnregister(s: ProgressState, v: ProgressView, f: CallbackId, p: real, t: string)
    requires ValidRegistry(s.progress) && ValidRegistry(s.text)
    ensures var (s1, pt) := RegisterProgressCallback(s, v, f);
            UpdateProgress(UnregisterProgressCallback(s1, v, pt), v, p) == UpdateProgress(s, v, p)
    ensures var (s1, tt) := RegisterTextCallback(s, v, f);
            UpdateProgressText(UnregisterTextCallback(s1, v, tt), v, t) == UpdateProgressText(s, v, t)
  {
    AddThenRemove(s.progress, f);
    AddThenRemove(s.text, f);
  }

  // ---- What the test callbacks observe ----

  /** The value the callback `f` last received, or `prev` if it received none. */
  function LastProgress(prev: real, d: seq<ProgressDelivery>, f: CallbackId): real
  {
    if |d| == 0 then prev
    else if d[|d| - 1].callback == f then d[|d| - 1].value
    else LastProgress(prev, d[..|d| - 1], f)
  }

  function LastText(prev: string, d: seq<TextDelivery>, f: CallbackId): string
  {
    if |d| == 0 then prev
    else if d[|d| - 1].callback == f then d[|d| - 1].text
    else LastText(prev, d[..|d| - 1], f)
  }

  /**
   * The progress test: updates reach the callbacks, stop after unregister,
   * and a `(0.5, 1.0)` child's 0.5 reaches the root's callback as 0.75.
   */
  lemma {:induction false} ProgressScenario(pf: CallbackId, tf: CallbackId)
    ensures var (s0, root) := NewProgressManager();
            var (s1, pt) := RegisterProgressCallback(s0, root, pf);
            var (s2, tt) := RegisterTextCallback(s1, root, tf);
            var s3 := UnregisterTextCallback(UnregisterProgressCallback(s2, root, pt), root, tt);
            var child := GetChild(root, 0.5, 1.0);
            var (s4, _) := RegisterProgressCallback(s3, root, pf);
            var (s5, _) := RegisterTextCallback(s4, root, tf);
            && LastProgress(0.0, UpdateProgress(s2, root, 0.5), pf) == 0.5
            && LastText("", UpdateProgressText(s2, root, "Hello World"), tf) == "Hello World"
            && UpdateProgress(s3, root, 0.6) == []
            && UpdateProgressText(s3, root, "Hello World2") == []
            && LastProgress(0.5, UpdateProgress(s5, child, 0.5), pf) == 0.75
            && LastText("Hello World", UpdateProgressText(s5, child, "Hello World2"), tf) == "Hello World2"
  {
    var (s0, root) := NewProgressManager();
    var (s1, pt) := RegisterProgressCallback(s0, root, pf);
    var (s2, tt) := RegisterTextCallback(s1, root, tf);
    assert s2.progress.entries == [Registration(pt, pf)];
    assert s2.text.entries == [Registration(tt, tf)];
    var s3 := UnregisterTextCallback(UnregisterProgressCallback(s2, root, pt), root, tt);
    AddThenRemove(s0.progress, pf);
    AddThenRemove(s1.text, tf);
    assert s3.progress.entries == [] && s3.text.entries == [];
    var child := GetChild(root, 0.5, 1.0);
    var (s4, _) := RegisterProgressCallback(s3, root, pf);
    var (s5, _) := RegisterTextCallback(s4, root, tf);
    assert s5.progress.entries == [s5.progress.entries[0]] && s5.progress.entries[0].callback == pf;
    assert s5.text.entries == [s5.text.entries[0]] && s5.text.entries[0].callback == tf;
    assert Rescale(child, 0.5) == 0.75;
  }

  /** The void manager and its child deliver nothing: the observers keep 0.0 and "". */
  lemma VoidProgressScenario(pf: CallbackId, tf: CallbackId)
    ensures var (s1, pt) := RegisterProgressCallback(ProgressState(EmptyRegistry(), EmptyRegistry()), VoidView, pf);
            var (s2, tt) := RegisterTextCallback(s1, VoidView, tf);
            var child := GetChild(VoidView, 0.5, 1.0);
            && LastProgress(0.0, UpdateProgress(s2, VoidView, 0.5), pf) == 0.0
            && LastText("", UpdateProgressText(s2, VoidView, "Hello World"), tf) == ""
            && LastProgress(0.0, UpdateProgress(s2, child, 0.5), pf) == 0.0
            && LastText("", UpdateProgressText(s2, child, "Hello World2"), tf) == ""
  {
  }

  /**
   * The child keeps reporting after the root handle is gone: the shared
   * state stays reachable from the child, so `(0.0, 0.5)` with 0.5 reaches
   * the root's callback as 0.25, and unregistering through the child
   * silences it.
   */
  lemma {:induction false} DroppedRootScenario(pf: CallbackId, tf: CallbackId)
    ensures var (s0, root) := NewProgressManager();
            var child := GetChild(root, 0.0, 0.5);
            var (s1, pt) := RegisterProgressCallback(s0, root, pf);
            var (s2, tt) := RegisterTextCallback(s1, root, tf);
            var s3 := UnregisterTextCallback(UnregisterProgressCallback(s2, child, pt), child, tt);
            && LastProgress(0.0, UpdateProgress(s2, child, 0.5), pf) == 0.25
            && LastText("", UpdateProgressText(s2, child, "Hello World"), tf) == "Hello World"
            && UpdateProgress(s3, child, 0.5) == []
            && UpdateProgressText(s3, child, "Hello World") == []
  {
    var (s0, root) := NewProgressManager();
    var child := GetChild(root, 0.0, 0.5);
    var (s1, pt) := RegisterProgressCallback(s0, root, pf);
    var (s2, tt) := RegisterTextCallback(s1, root, tf);
    assert s2.progress.entries == [Registration(pt, pf)];
    assert s2.text.entries == [Registration(tt, tf)];
    AddThenRemove(s0.progress, pf);
    AddThenRemove(s1.text, tf);
    assert Rescale(child, 0.5) == 0.25;
  }
}
