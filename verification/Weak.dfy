/**
 * Containers of weak pointers and the `for_each` sweep over them: visit the
 * objects that are still alive, in container order, and erase the entries
 * whose object has gone.
 */
module Weak {
  import opened Wrappers

  /**
   * A `std::weak_ptr<T>`: the identity of the control block it shares with
   * its owners, and the object it points to while an owner is alive
   * (`None` once it has expired).
   */
  datatype WeakPtr<T> = WeakPtr(owner: nat, target: Option<T>)
  {
    predicate Live() { target.Some? }
  }

  /** Reference: the objects a sweep of `c` visits, in container order. */
  function LiveValues<T>(c: seq<WeakPtr<T>>): seq<T>
  {
    if |c| == 0 then []
    else
      var last := c[|c| - 1];
      LiveValues(c[..|c| - 1]) + (if last.Live() then [last.target.value] else [])
  }

  /** Reference: `c` with its expired entries removed, order kept. */
  function LiveEntries<T>(c: seq<WeakPtr<T>>): seq<WeakPtr<T>>
  {
    if |c| == 0 then []
    else
      var last := c[|c| - 1];
      LiveEntries(c[..|c| - 1]) + (if last.Live() then [last] else [])
  }

  /** What the sweep leaves: exactly the live entries of the original, and each visit matches its entry. */
  lemma {:induction false} LiveEntriesFacts<T>(c: seq<WeakPtr<T>>)
    ensures forall p :: p in LiveEntries(c) <==> p in c && p.Live()
    ensures |LiveEntries(c)| == |LiveValues(c)| <= |c|
    ensures forall i :: 0 <= i < |LiveEntries(c)| ==> LiveEntries(c)[i].target == Some(LiveValues(c)[i])
  {
    if |c| > 0 {
      var init := c[..|c| - 1];
      LiveEntriesFacts(init);
      assert c == init + [c[|c| - 1]];
    }
  }

  /** After the first `i` entries of `c`, the sweep has kept `done` and visited `visited`. */
  ghost predicate SweptUpTo<T>(c: seq<WeakPtr<T>>, i: nat, done: seq<WeakPtr<T>>, visited: seq<T>)
    requires i <= |c|
  {
    done == LiveEntries(c[..i]) && visited == LiveValues(c[..i])
  }

  /** One more entry of `c`: kept and visited if live, dropped otherwise. */
  lemma SweptStep<T>(c: seq<WeakPtr<T>>, i: nat, done: seq<WeakPtr<T>>, visited: seq<T>)
    requires i < |c| && SweptUpTo(c, i, done, visited)
    ensures c[i].Live() ==> SweptUpTo(c, i + 1, done + [c[i]], visited + [c[i].target.value])
    ensures !c[i].Live() ==> SweptUpTo(c, i + 1, done, visited)
  {
    assert c[..i + 1] == c[..i] + [c[i]];
    LiveAppend(c[..i], c[i]);
  }

  /** Slicing a container made of a finished part and the entries still to visit. */
  lemma SplitAt<T>(done: seq<WeakPtr<T>>, rest: seq<WeakPtr<T>>)
    requires |rest| > 0
    ensures (done + rest)[|done|] == rest[0]
    ensures (done + rest)[..|done|] + (done + rest)[|done| + 1..] == done + rest[1..]
    ensures done + rest == (done + [rest[0]]) + rest[1..]
  {
    assert (done + rest)[..|done|] == done && (done + rest)[|done| + 1..] == rest[1..];
  }

  /**
   * `detail::for_each(l, f)`: walks the container with an iterator; a live
   * entry is passed to `f` and stepped over, an expired one is erased in
   * place. `visited` is the sequence of objects `f` is called on, `c'` the
   * container afterwards.
   */
  method ForEach<T>(c: seq<WeakPtr<T>>) returns (visited: seq<T>, c': seq<WeakPtr<T>>)
    ensures visited == LiveValues(c)
    ensures c' == LiveEntries(c)
    ensures forall p :: p in c' <==> p in c && p.Live()
    ensures |c'| == |visited| && forall i :: 0 <= i < |c'| ==> c'[i].target == Some(visited[i])
  {
    c' := c;
    visited := [];
    var it := 0;      // iterator position in the container being edited
    ghost var i := 0; // matching position in the original container
    // The kept entries before the iterator, and the entries from it on.
    ghost var done: seq<WeakPtr<T>> := [];
    ghost var rest := c;
    while it < |c'|
      invariant 0 <= i <= |c| && it == |done|
      invariant c' == done + rest && rest == c[i..]
      invariant SweptUpTo(c, i, done, visited)
      decreases |rest|
    {
      SplitAt(done, rest);
      SweptStep(c, i, done, visited);
      assert rest[0] == c[i] && rest[1..] == c[i + 1..];
      var ptr := c'[it].target;
      if ptr.Some? {
        visited := visited + [ptr.value];
        done := done + [rest[0]];
        it := it + 1;
      } else {
        c' := c'[..it] + c'[it + 1..];
      }
      rest := rest[1..];
      i := i + 1;
    }
    assert c[..i] == c;
    LiveEntriesFacts(c);
  }

  /** Every entry the sweep keeps was in the original container. */
  lemma LiveEntryOrigin<T>(c: seq<WeakPtr<T>>, q: WeakPtr<T>)
    requires q in LiveEntries(c)
    ensures q in c && q.Live()
  {
    LiveEntriesFacts(c);
  }

  /** One more entry extends both references by at most that entry. */
  lemma LiveAppend<T>(c: seq<WeakPtr<T>>, p: WeakPtr<T>)
    ensures LiveValues(c + [p]) == LiveValues(c) + (if p.Live() then [p.target.value] else [])
    ensures LiveEntries(c + [p]) == LiveEntries(c) + (if p.Live() then [p] else [])
  {
    assert (c + [p])[..|c|] == c;
  }

  /** A sweep of two containers one after the other is the sweep of their concatenation. */
  lemma {:induction false} LiveConcat<T>(a: seq<WeakPtr<T>>, b: seq<WeakPtr<T>>)
    ensures LiveValues(a + b) == LiveValues(a) + LiveValues(b)
    ensures LiveEntries(a + b) == LiveEntries(a) + LiveEntries(b)
    decreases |b|
  {
    if |b| == 0 {
      assert a + b == a;
    } else {
      var b', x := b[..|b| - 1], b[|b| - 1];
      assert b == b' + [x] && a + b == (a + b') + [x];
      LiveConcat(a, b');
      LiveAppend(a + b', x);
      LiveAppend(b', x);
    }
  }

  /** What one entry contributes to a sweep's visits and to what it keeps. */
  function VisitOf<T>(p: WeakPtr<T>): seq<T>
  {
    if p.Live() then [p.target.value] else []
  }

  function KeptOf<T>(p: WeakPtr<T>): seq<WeakPtr<T>>
  {
    if p.Live() then [p] else []
  }

  /** Moving a middle part to the end of a sequence keeps its multiset. */
  lemma MultisetMiddle<X>(a: seq<X>, x: seq<X>, w: seq<X>)
    ensures multiset((a + x) + w) == multiset(a + w) + multiset(x)
  {
  }

  /** An entry in the middle of a container contributes its visit as if it came last. */
  lemma SweepAroundValues<T>(u: seq<WeakPtr<T>>, x: WeakPtr<T>, w: seq<WeakPtr<T>>)
    ensures multiset(LiveValues((u + [x]) + w)) == multiset(LiveValues(u + w)) + multiset(VisitOf(x))
  {
    LiveConcat(u + [x], w);
    LiveAppend(u, x);
    LiveConcat(u, w);
    assert LiveValues((u + [x]) + w) == (LiveValues(u) + VisitOf(x)) + LiveValues(w);
    MultisetMiddle(LiveValues(u), VisitOf(x), LiveValues(w));
  }

  /** An entry in the middle of a container is kept or erased as if it came last. */
  lemma SweepAroundEntries<T>(u: seq<WeakPtr<T>>, x: WeakPtr<T>, w: seq<WeakPtr<T>>)
    ensures multiset(LiveEntries((u + [x]) + w)) == multiset(LiveEntries(u + w)) + multiset(KeptOf(x))
  {
    LiveConcat(u + [x], w);
    LiveAppend(u, x);
    LiveConcat(u, w);
    assert LiveEntries((u + [x]) + w) == (LiveEntries(u) + KeptOf(x)) + LiveEntries(w);
    MultisetMiddle(LiveEntries(u), KeptOf(x), LiveEntries(w));
  }

  /** Taking the same entry out of two equal multisets of entries leaves equal multisets. */
  lemma RemoveMatch<T>(s: seq<WeakPtr<T>>, x: WeakPtr<T>, u: seq<WeakPtr<T>>, w: seq<WeakPtr<T>>)
    requires multiset(s + [x]) == multiset((u + [x]) + w)
    ensures multiset(s) == multiset(u + w)
  {
    assert multiset(s) == multiset(s + [x]) - multiset{x};
    assert multiset(u + w) == multiset((u + [x]) + w) - multiset{x};
  }

  /**
   * What a sweep visits and keeps, counted with multiplicity, depends only
   * on the entries and not on their order: the order of a WeakSet follows
   * control-block addresses, which a program does not choose.
   */
  lemma {:induction false} SweepPermutation<T>(s: seq<WeakPtr<T>>, t: seq<WeakPtr<T>>)
    requires multiset(s) == multiset(t)
    ensures multiset(LiveValues(s)) == multiset(LiveValues(t))
    ensures multiset(LiveEntries(s)) == multiset(LiveEntries(t))
    decreases |s|
  {
    if |s| == 0 {
      assert |t| == |multiset(t)| == 0;
    } else {
      var s', x := s[..|s| - 1], s[|s| - 1];
      assert s == s' + [x];
      assert x in multiset(t);
      var j :| 0 <= j < |t| && t[j] == x;
      var u, w := t[..j], t[j + 1..];
      assert t == (u + [x]) + w;
      RemoveMatch(s', x, u, w);
      SweepPermutation(s', u + w);
      LiveAppend(s', x);
      SweepAroundValues(u, x, w);
      SweepAroundEntries(u, x, w);
    }
  }

  /** A second sweep with no new expiries visits the same objects and erases nothing. */
  lemma {:induction false} ForEachIdempotent<T>(c: seq<WeakPtr<T>>)
    ensures LiveEntries(LiveEntries(c)) == LiveEntries(c)
    ensures LiveValues(LiveEntries(c)) == LiveValues(c)
  {
    if |c| > 0 {
      var init := c[..|c| - 1];
      ForEachIdempotent(init);
      var e := LiveEntries(init);
      if c[|c| - 1].Live() {
        assert (e + [c[|c| - 1]])[..|e|] == e;
      } else {
        assert LiveEntries(c) == e;
      }
    }
  }

  // ---- WeakList: a std::list of weak pointers; duplicates allowed ----

  /** `WeakList::push_back`: appends, even when the same pointer is already present. */
  function PushBack<T>(l: seq<WeakPtr<T>>, p: WeakPtr<T>): (r: seq<WeakPtr<T>>)
    ensures |r| == |l| + 1 && r[|l|] == p && r[..|l|] == l
  {
    l + [p]
  }

  /** After a push_back, a sweep visits what it visited before and then the new pointer, if live. */
  lemma PushBackVisitsLast<T>(l: seq<WeakPtr<T>>, p: WeakPtr<T>)
    ensures LiveValues(PushBack(l, p)) == LiveValues(l) + VisitOf(p)
    ensures LiveEntries(PushBack(l, p)) == LiveEntries(l) + KeptOf(p)
  {
    LiveAppend(l, p);
  }

  // ---- WeakSet: a std::set of weak pointers ordered by owner ----

  /** A WeakSet keeps one entry per owner, iterated in owner order. */
  predicate IsWeakSet<T>(s: seq<WeakPtr<T>>)
  {
    forall i, j :: 0 <= i < j < |s| ==> s[i].owner < s[j].owner
  }

  /** True iff some entry of `s` has the given owner. */
  predicate HasOwner<T>(s: seq<WeakPtr<T>>, owner: nat)
  {
    exists i :: 0 <= i < |s| && s[i].owner == owner
  }

  /** Every owner in `s` is above `lo`. */
  predicate OwnersAbove<T>(s: seq<WeakPtr<T>>, lo: int)
  {
    forall k :: 0 <= k < |s| ==> lo < s[k].owner
  }

  /** `WeakSet::emplace`: inserts `p` in owner order unless its owner is already present. */
  function Emplace<T>(s: seq<WeakPtr<T>>, p: WeakPtr<T>): (r: seq<WeakPtr<T>>)
    requires IsWeakSet(s)
    ensures IsWeakSet(r)
    ensures forall lo :: lo < p.owner && OwnersAbove(s, lo) ==> OwnersAbove(r, lo)
  {
    if |s| == 0 then [p]
    else if p.owner < s[0].owner then [p] + s
    else if p.owner == s[0].owner then s
    else
      var rest := Emplace(s[1..], p);
      assert OwnersAbove(s[1..], s[0].owner);
      assert OwnersAbove(rest, s[0].owner);
      [s[0]] + rest
  }

  /** Past an owner smaller than `owner`, only the tail can hold `owner`. */
  lemma HasOwnerTail<T>(s: seq<WeakPtr<T>>, owner: nat)
    requires |s| > 0 && s[0].owner != owner
    ensures HasOwner(s, owner) <==> HasOwner(s[1..], owner)
  {
    if HasOwner(s, owner) {
      var k :| 0 <= k < |s| && s[k].owner == owner;
      assert s[1..][k - 1] == s[k];
    }
    if HasOwner(s[1..], owner) {
      var k :| 0 <= k < |s[1..]| && s[1..][k].owner == owner;
      assert s[k + 1] == s[1..][k];
    }
  }

  /** Emplacing a pointer whose owner is already stored changes nothing. */
  lemma {:induction false} EmplacePresent<T>(s: seq<WeakPtr<T>>, p: WeakPtr<T>)
    requires IsWeakSet(s) && HasOwner(s, p.owner)
    ensures Emplace(s, p) == s
  {
    if p.owner > s[0].owner {
      HasOwnerTail(s, p.owner);
      EmplacePresent(s[1..], p);
      assert s == [s[0]] + s[1..];
    }
  }

  /** Emplacing a pointer with a new owner adds exactly that pointer. */
  lemma {:induction false} EmplaceAbsent<T>(s: seq<WeakPtr<T>>, p: WeakPtr<T>)
    requires IsWeakSet(s) && !HasOwner(s, p.owner)
    ensures multiset(Emplace(s, p)) == multiset(s) + multiset{p}
  {
    if |s| > 0 {
      assert s[0].owner != p.owner;
      if p.owner > s[0].owner {
        HasOwnerTail(s, p.owner);
        EmplaceAbsent(s[1..], p);
        assert s == [s[0]] + s[1..];
      }
    }
  }

  /** An owner above every stored one goes to the end. */
  lemma {:induction false} EmplaceLargest<T>(s: seq<WeakPtr<T>>, p: WeakPtr<T>)
    requires IsWeakSet(s)
    requires forall k :: 0 <= k < |s| ==> s[k].owner < p.owner
    ensures Emplace(s, p) == s + [p]
  {
    if |s| > 0 {
      EmplaceLargest(s[1..], p);
      assert s == [s[0]] + s[1..];
    }
  }

  /** A sweep of a WeakSet leaves a WeakSet: filtering keeps the owner order. */
  lemma {:induction false} ForEachKeepsWeakSet<T>(s: seq<WeakPtr<T>>)
    requires IsWeakSet(s)
    ensures IsWeakSet(LiveEntries(s))
  {
    if |s| > 0 {
      var init := s[..|s| - 1];
      ForEachKeepsWeakSet(init);
      LiveEntriesFacts(init);
      var e := LiveEntries(init);
      forall q | q in e ensures q.owner < s[|s| - 1].owner {
        LiveEntryOrigin(init, q);
        var k :| 0 <= k < |init| && init[k] == q;
      }
      if s[|s| - 1].Live() {
        var r := e + [s[|s| - 1]];
        forall i, j | 0 <= i < j < |r| ensures r[i].owner < r[j].owner {
          if j == |e| {
            assert e[i] in e;
          }
        }
      } else {
        assert LiveEntries(s) == e;
      }
    }
  }

  /**
   * The WeakList scenario: a, b, c, d pushed with d twice gives five
   * entries and a sweep would visit all five. Owners are any control blocks.
   */
  lemma WeakListScenario(oa: nat, ob: nat, oc: nat, od: nat)
    ensures var a, b, c, d := WeakPtr(oa, Some(1)), WeakPtr(ob, Some(2)), WeakPtr(oc, Some(3)), WeakPtr(od, Some(4));
            var l := PushBack(PushBack(PushBack(PushBack(PushBack([], a), b), c), d), d);
            l == [a, b, c, d, d] && LiveValues(l) == [1, 2, 3, 4, 4]
  {
    var a, b, c, d := WeakPtr(oa, Some(1)), WeakPtr(ob, Some(2)), WeakPtr(oc, Some(3)), WeakPtr(od, Some(4));
    LiveAppend([], a);
    LiveAppend([a], b);
    LiveAppend([a, b], c);
    LiveAppend([a, b, c], d);
    LiveAppend([a, b, c, d], d);
    assert [a] == [] + [a] && [a, b] == [a] + [b] && [a, b, c] == [a, b] + [c];
    assert [a, b, c, d] == [a, b, c] + [d] && [a, b, c, d, d] == [a, b, c, d] + [d];
  }

  /** The same list once b and d are released: a sweep visits 1 and 3 and keeps a and c. */
  lemma WeakListSweepScenario(oa: nat, ob: nat, oc: nat, od: nat)
    ensures var a, c := WeakPtr(oa, Some(1)), WeakPtr(oc, Some(3));
            var l' := [a, WeakPtr(ob, None), c, WeakPtr(od, None), WeakPtr(od, None)];
            LiveValues(l') == [1, 3] && LiveEntries(l') == [a, c]
  {
    var a, c := WeakPtr(oa, Some(1)), WeakPtr(oc, Some(3));
    var b', d' := WeakPtr(ob, None), WeakPtr(od, None);
    LiveAppend([], a);
    LiveAppend([a], b');
    LiveAppend([a, b'], c);
    LiveAppend([a, b', c], d');
    LiveAppend([a, b', c, d'], d');
    assert [a] == [] + [a] && [a, b'] == [a] + [b'] && [a, b', c] == [a, b'] + [c];
    assert [a, b', c, d'] == [a, b', c] + [d'] && [a, b', c, d', d'] == [a, b', c, d'] + [d'];
  }

  /** No entry of `s` has the given owner. */
  lemma NoOwner<T>(s: seq<WeakPtr<T>>, owner: nat)
    requires forall p :: p in multiset(s) ==> p.owner != owner
    ensures !HasOwner(s, owner)
  {
    forall k | 0 <= k < |s| ensures s[k].owner != owner {
      assert s[k] in multiset(s);
    }
  }

  /**
   * EmplaceAbsent restated with its precondition over the multiset of
   * entries rather than HasOwner, the form EmplaceAllNew works in.
   */
  lemma EmplaceNew<T>(s: seq<WeakPtr<T>>, p: WeakPtr<T>)
    requires IsWeakSet(s)
    requires forall q :: q in multiset(s) ==> q.owner != p.owner
    ensures IsWeakSet(Emplace(s, p)) && multiset(Emplace(s, p)) == multiset(s) + multiset{p}
  {
    NoOwner(s, p.owner);
    EmplaceAbsent(s, p);
  }

  /** An entry of `s` makes its owner present. */
  lemma MemberHasOwner<T>(s: seq<WeakPtr<T>>, p: WeakPtr<T>)
    requires p in multiset(s)
    ensures HasOwner(s, p.owner)
  {
    var k :| 0 <= k < |s| && s[k] == p;
  }

  /** Emplaces the pointers of `ps` one after another, first to last. */
  function EmplaceAll<T>(s: seq<WeakPtr<T>>, ps: seq<WeakPtr<T>>): (r: seq<WeakPtr<T>>)
    requires IsWeakSet(s)
    ensures IsWeakSet(r)
    decreases |ps|
  {
    if |ps| == 0 then s else EmplaceAll(Emplace(s, ps[0]), ps[1..])
  }

  /** Owners absent from `s` and different from `p` stay absent once `p` is added. */
  lemma StillFresh<T>(s: seq<WeakPtr<T>>, s': seq<WeakPtr<T>>, p: WeakPtr<T>, rest: seq<WeakPtr<T>>)
    requires multiset(s') == multiset(s) + multiset{p}
    requires forall q, j :: q in multiset(s) && 0 <= j < |rest| ==> q.owner != rest[j].owner
    requires forall j :: 0 <= j < |rest| ==> p.owner != rest[j].owner
    ensures forall q, j :: q in multiset(s') && 0 <= j < |rest| ==> q.owner != rest[j].owner
  {
    forall q: WeakPtr<T>, j: int | q in multiset(s') && 0 <= j < |rest|
      ensures q.owner != rest[j].owner
    {
      if q != p {
        assert q in multiset(s);
      }
    }
  }

  /** A sequence's multiset splits into its head and its tail. */
  lemma MultisetCons<X>(ps: seq<X>)
    requires |ps| > 0
    ensures multiset(ps) == multiset{ps[0]} + multiset(ps[1..])
  {
    assert ps == [ps[0]] + ps[1..];
  }

  /** The tail of pointers with pairwise distinct owners keeps them distinct, and apart from the head. */
  lemma DistinctTail<T>(ps: seq<WeakPtr<T>>)
    requires |ps| > 0
    requires forall i, j :: 0 <= i < j < |ps| ==> ps[i].owner != ps[j].owner
    ensures forall i, j :: 0 <= i < j < |ps[1..]| ==> ps[1..][i].owner != ps[1..][j].owner
    ensures forall j :: 0 <= j < |ps[1..]| ==> ps[0].owner != ps[1..][j].owner
  {
    forall i, j | 0 <= i < j < |ps[1..]| ensures ps[1..][i].owner != ps[1..][j].owner {
      assert ps[1..][i] == ps[i + 1] && ps[1..][j] == ps[j + 1];
    }
    forall j | 0 <= j < |ps[1..]| ensures ps[0].owner != ps[1..][j].owner {
      assert ps[1..][j] == ps[j + 1];
    }
  }

  /** Owners new to `s` for all of `ps` are new for its head and for its tail. */
  lemma FreshTail<T>(s: seq<WeakPtr<T>>, ps: seq<WeakPtr<T>>)
    requires |ps| > 0
    requires forall q, j :: q in multiset(s) && 0 <= j < |ps| ==> q.owner != ps[j].owner
    ensures forall q :: q in multiset(s) ==> q.owner != ps[0].owner
    ensures forall q, j :: q in multiset(s) && 0 <= j < |ps[1..]| ==> q.owner != ps[1..][j].owner
  {
    forall q, j | q in multiset(s) && 0 <= j < |ps[1..]| ensures q.owner != ps[1..][j].owner {
      assert ps[1..][j] == ps[j + 1];
    }
  }

  /** Pointers whose owners are pairwise distinct and new to `s` are all stored. */
  lemma {:induction false} EmplaceAllNew<T>(s: seq<WeakPtr<T>>, ps: seq<WeakPtr<T>>)
    requires IsWeakSet(s)
    requires forall q, j :: q in multiset(s) && 0 <= j < |ps| ==> q.owner != ps[j].owner
    requires forall i, j :: 0 <= i < j < |ps| ==> ps[i].owner != ps[j].owner
    ensures multiset(EmplaceAll(s, ps)) == multiset(s) + multiset(ps)
    decreases |ps|
  {
    if |ps| > 0 {
      FreshTail(s, ps);
      DistinctTail(ps);
      EmplaceNew(s, ps[0]);
      var s' := Emplace(s, ps[0]);
      StillFresh(s, s', ps[0], ps[1..]);
      EmplaceAllNew(s', ps[1..]);
      MultisetCons(ps);
    }
  }

  /**
   * The WeakSet scenario: four pointers, two of them holding the value 3,
   * emplaced in turn, and the last one once more, give four entries: the
   * repeat is stored once, equal values behind distinct owners are both
   * kept. The control blocks are any four distinct ones, in any address
   * order.
   */
  lemma WeakSetScenario(o1: nat, o2: nat, o3: nat, o4: nat)
    requires o1 != o2 && o1 != o3 && o1 != o4 && o2 != o3 && o2 != o4 && o3 != o4
    ensures var i1, i2, i3, i4 := WeakPtr(o1, Some(1)), WeakPtr(o2, Some(2)), WeakPtr(o3, Some(3)), WeakPtr(o4, Some(3));
            var s := Emplace(EmplaceAll([], [i1, i2, i3, i4]), i4);
            IsWeakSet(s) && |s| == 4 && multiset(s) == multiset{i1, i2, i3, i4}
            && multiset(LiveValues(s)) == multiset{1, 2, 3, 3}
  {
    var i1, i2, i3, i4 := WeakPtr(o1, Some(1)), WeakPtr(o2, Some(2)), WeakPtr(o3, Some(3)), WeakPtr(o4, Some(3));
    var ps := [i1, i2, i3, i4];
    EmplaceAllNew([], ps);
    var s4 := EmplaceAll([], ps);
    assert multiset(s4) == multiset{i1, i2, i3, i4};
    MemberHasOwner(s4, i4);
    EmplacePresent(s4, i4);
    assert |s4| == |multiset(s4)|;
    assert multiset(s4) == multiset([i1, i2, i3, i4]);
    WeakSetVisitAnyOrder(o1, o2, o3, o4, s4);
  }

  /** A sweep of that set visits 1, 2, 3, 3 in owner order and keeps every entry. */
  lemma WeakSetVisitScenario(o1: nat, o2: nat, o3: nat, o4: nat)
    ensures var s := [WeakPtr(o1, Some(1)), WeakPtr(o2, Some(2)), WeakPtr(o3, Some(3)), WeakPtr(o4, Some(3))];
            LiveValues(s) == [1, 2, 3, 3] && LiveEntries(s) == s
  {
    var i1, i2, i3, i4 := WeakPtr(o1, Some(1)), WeakPtr(o2, Some(2)), WeakPtr(o3, Some(3)), WeakPtr(o4, Some(3));
    LiveAppend([], i1);
    LiveAppend([i1], i2);
    LiveAppend([i1, i2], i3);
    LiveAppend([i1, i2, i3], i4);
    assert [i1] == [] + [i1] && [i1, i2] == [i1] + [i2];
    assert [i1, i2, i3] == [i1, i2] + [i3] && [i1, i2, i3, i4] == [i1, i2, i3] + [i4];
  }

  /**
   * Whatever address order the set holds those four entries in, a sweep
   * visits 1 once, 2 once and 3 twice, and keeps all four entries.
   */
  lemma WeakSetVisitAnyOrder(o1: nat, o2: nat, o3: nat, o4: nat, s: seq<WeakPtr<int>>)
    requires multiset(s) == multiset([WeakPtr(o1, Some(1)), WeakPtr(o2, Some(2)), WeakPtr(o3, Some(3)), WeakPtr(o4, Some(3))])
    ensures multiset(LiveValues(s)) == multiset{1, 2, 3, 3}
    ensures multiset(LiveEntries(s)) == multiset(s) && |LiveEntries(s)| == 4
  {
    var t := [WeakPtr(o1, Some(1)), WeakPtr(o2, Some(2)), WeakPtr(o3, Some(3)), WeakPtr(o4, Some(3))];
    WeakSetVisitScenario(o1, o2, o3, o4);
    SweepPermutation(s, t);
    assert |LiveEntries(s)| == |multiset(LiveEntries(s))| == |multiset(t)|;
  }

  /** In owner order, the set after releasing 2 and the first 3: a sweep visits 1 and 3 and keeps those two. */
  lemma ReleasedSweep(o1: nat, o2: nat, o3: nat, o4: nat)
    ensures var i1, i4 := WeakPtr(o1, Some(1)), WeakPtr(o4, Some(3));
            var t := [i1, WeakPtr(o2, None), WeakPtr(o3, None), i4];
            LiveValues(t) == [1, 3] && LiveEntries(t) == [i1, i4]
  {
    var i1, i2', i3', i4 := WeakPtr(o1, Some(1)), WeakPtr(o2, None), WeakPtr(o3, None), WeakPtr(o4, Some(3));
    LiveAppend([], i1);
    LiveAppend([i1], i2');
    LiveAppend([i1, i2'], i3');
    LiveAppend([i1, i2', i3'], i4);
    assert [i1] == [] + [i1] && [i1, i2'] == [i1] + [i2'] && [i1, i2', i3'] == [i1, i2'] + [i3'];
    assert [i1, i2', i3', i4] == [i1, i2', i3'] + [i4];
  }

  /**
   * The same set once the pointers holding 2 and the first 3 are released,
   * in whatever owner order the set holds its entries: a sweep visits 1 and
   * 3 and keeps exactly those two entries, still as a WeakSet.
   */
  lemma WeakSetSweepScenario(o1: nat, o2: nat, o3: nat, o4: nat, s: seq<WeakPtr<int>>)
    requires IsWeakSet(s)
    requires multiset(s) == multiset([WeakPtr(o1, Some(1)), WeakPtr(o2, None), WeakPtr(o3, None), WeakPtr(o4, Some(3))])
    ensures multiset(LiveValues(s)) == multiset{1, 3}
    ensures multiset(LiveEntries(s)) == multiset{WeakPtr(o1, Some(1)), WeakPtr(o4, Some(3))}
    ensures |LiveEntries(s)| == 2 && IsWeakSet(LiveEntries(s))
  {
    var t := [WeakPtr(o1, Some(1)), WeakPtr(o2, None), WeakPtr(o3, None), WeakPtr(o4, Some(3))];
    ReleasedSweep(o1, o2, o3, o4);
    SweepPermutation(s, t);
    assert |LiveEntries(s)| == |multiset(LiveEntries(s))| == |multiset(LiveEntries(t))|;
    ForEachKeepsWeakSet(s);
  }
}
