/**
 * Nested loops that append: what it means that they append exactly one item for each place of their iteration,
 * in the order of the iteration.
 */
module Listings {
  import opened Results

  /** A place in up to three nested loops. */
  datatype Place = Place(outer: nat, middle: nat, inner: nat)

  predicate Before(p: Place, q: Place) {
    || p.outer < q.outer
    || (p.outer == q.outer && p.middle < q.middle)
    || (p.outer == q.outer && p.middle == q.middle && p.inner < q.inner)
  }

  predicate Increasing(places: seq<Place>) {
    forall i, j :: 0 <= i < j < |places| ==> Before(places[i], places[j])
  }

  /** Item by item, `items` are what `at` puts at `places`, and nothing that `at` puts anywhere is missing. */
  ghost predicate Lists<T(!new)>(items: seq<T>, places: seq<Place>, at: Place -> Option<T>) {
    && |items| == |places|
    && Increasing(places)
    && (forall i :: 0 <= i < |places| ==> at(places[i]) == Some(items[i]))
    && (forall p :: at(p).Some? ==> p in places)
  }

  /** The items that `at` puts anywhere, each once, in order. */
  ghost predicate Listed<T(!new)>(items: seq<T>, at: Place -> Option<T>) {
    exists places :: Lists(items, places, at)
  }

  /** Two parts, the first before the second. */
  lemma ListsConcat<T(!new)>(a: seq<T>, pa: seq<Place>, f: Place -> Option<T>,
                             b: seq<T>, pb: seq<Place>, g: Place -> Option<T>, at: Place -> Option<T>)
    requires Lists(a, pa, f) && Lists(b, pb, g)
    requires forall p, q :: f(p).Some? && g(q).Some? ==> Before(p, q)
    requires forall p :: at(p) == if f(p).Some? then f(p) else g(p)
    ensures Lists(a + b, pa + pb, at)
  {
    var places, items := pa + pb, a + b;
    forall i, j | 0 <= i < j < |places|
      ensures Before(places[i], places[j])
    {
      if i < |pa| <= j {
        assert f(pa[i]).Some? && g(pb[j - |pa|]).Some?;
      }
    }
    forall i | 0 <= i < |places|
      ensures at(places[i]) == Some(items[i])
    {
      if |pa| <= i {
        var q := pb[i - |pa|];
        assert g(q).Some?;
        assert f(q).Some? ==> Before(q, q);
      }
    }
    forall p | at(p).Some?
      ensures p in places
    {
      if f(p).Some? {
        assert p in pa;
      } else {
        assert p in pb;
      }
    }
  }

  lemma ListedConcat<T(!new)>(
    a: seq<T>, f: Place -> Option<T>, b: seq<T>, g: Place -> Option<T>, at: Place -> Option<T>)
    requires Listed(a, f) && Listed(b, g)
    requires forall p, q :: f(p).Some? && g(q).Some? ==> Before(p, q)
    requires forall p :: at(p) == if f(p).Some? then f(p) else g(p)
    ensures Listed(a + b, at)
  {
    var pa :| Lists(a, pa, f);
    var pb :| Lists(b, pb, g);
    ListsConcat(a, pa, f, b, pb, g, at);
  }

  /** The same places under another description. */
  lemma ListedSame<T(!new)>(items: seq<T>, f: Place -> Option<T>, g: Place -> Option<T>)
    requires Listed(items, f) && forall p :: f(p) == g(p)
    ensures Listed(items, g)
  {
    var places :| Lists(items, places, f);
    assert Lists(items, places, g);
  }

  /** One item, or none. */
  lemma OneListed<T(!new)>(item: Option<T>, place: Place, at: Place -> Option<T>)
    requires forall p :: at(p) == if p == place then item else None
    ensures Listed(if item.Some? then [item.value] else [], at)
  {
    assert Lists(if item.Some? then [item.value] else [], if item.Some? then [place] else [], at);
  }

  lemma NothingIsListed<T(!new)>(at: Place -> Option<T>)
    requires forall p :: at(p).None?
    ensures Listed([], at)
  {
    assert Lists([], [], at);
  }

  /** An innermost loop over `items`. */
  lemma RowListed<T(!new)>(items: seq<T>, outer: nat, middle: nat, at: Place -> Option<T>)
    requires forall p :: at(p) ==
               if p.outer == outer && p.middle == middle && p.inner < |items| then Some(items[p.inner]) else None
    ensures Listed(items, at)
  {
    var places := seq(|items|, k requires 0 <= k < |items| => Place(outer, middle, k));
    forall p | at(p).Some?
      ensures p in places
    {
      assert p == places[p.inner];
    }
    assert Lists(items, places, at);
  }

  /** What is selected of a listing is the listing of what is selected. */
  lemma {:induction false} SelectedListed<T(!new)>(items: seq<T>, places: seq<Place>, at: Place -> Option<T>,
                                                   chosen: seq<T>, keep: T -> bool, kept: Place -> Option<T>)
    requires Lists(items, places, at) && chosen == Select(items, keep)
    requires forall p :: kept(p) == if at(p).Some? && keep(at(p).value) then at(p) else None
    ensures Listed(chosen, kept)
  {
    SelectPlaces(items, places, at, keep);
    var ps := PlacesOf(items, places, keep);
    forall p | kept(p).Some?
      ensures p in ps
    {
      var i :| 0 <= i < |places| && places[i] == p;
      KeptPlace(items, places, keep, i);
    }
    assert Lists(chosen, ps, kept);
  }

  function Select<T>(items: seq<T>, keep: T -> bool): seq<T> {
    if items == [] then []
    else
      var last := items[|items| - 1];
      Select(items[..|items| - 1], keep) + if keep(last) then [last] else []
  }

  function PlacesOf<T>(items: seq<T>, places: seq<Place>, keep: T -> bool): seq<Place>
    requires |items| == |places|
  {
    if items == [] then []
    else
      var n := |items| - 1;
      PlacesOf(items[..n], places[..n], keep) + if keep(items[n]) then [places[n]] else []
  }

  lemma {:induction false} KeptPlace<T>(items: seq<T>, places: seq<Place>, keep: T -> bool, i: nat)
    requires |items| == |places| && i < |items| && keep(items[i])
    ensures places[i] in PlacesOf(items, places, keep)
    decreases |items|
  {
    var n := |items| - 1;
    if i < n {
      KeptPlace(items[..n], places[..n], keep, i);
    }
  }

  /** The selected places are some of the places, in order, with the selected items. */
  lemma {:induction false} SelectPlaces<T(!new)>(
    items: seq<T>, places: seq<Place>, at: Place -> Option<T>, keep: T -> bool)
    requires |items| == |places| && Increasing(places)
    requires forall i :: 0 <= i < |places| ==> at(places[i]) == Some(items[i])
    ensures var ps, chosen := PlacesOf(items, places, keep), Select(items, keep);
            && |ps| == |chosen| && Increasing(ps)
            && (forall i :: 0 <= i < |ps| ==> ps[i] in places && at(ps[i]) == Some(chosen[i]) && keep(chosen[i]))
    decreases |items|
  {
    if items != [] {
      var n := |items| - 1;
      SelectPlaces(items[..n], places[..n], at, keep);
      var ps := PlacesOf(items[..n], places[..n], keep);
      forall i | 0 <= i < |ps|
        ensures Before(ps[i], places[n])
      {
        assert ps[i] in places[..n];
      }
    }
  }

  // ----- A listing says everything -----

  lemma {:induction false} SamePlaces(a: seq<Place>, b: seq<Place>)
    requires Increasing(a) && Increasing(b) && forall p :: p in a <==> p in b
    ensures a == b
    decreases |a|
  {
    assert b != [] ==> b[0] in b;
    if a != [] {
      assert a[0] in b && b[0] in a;
      var i :| 0 <= i < |b| && b[i] == a[0];
      var j :| 0 <= j < |a| && a[j] == b[0];
      assert i != 0 ==> Before(b[0], a[0]);
      assert j != 0 ==> Before(a[0], b[0]);
      forall p
        ensures p in a[1..] <==> p in b[1..]
      {
        if p in a[1..] {
          var k :| 1 <= k < |a| && a[k] == p;
          assert Before(a[0], p) && p in b;
          var l :| 0 <= l < |b| && b[l] == p;
          assert b[1..][l - 1] == p;
        }
        if p in b[1..] {
          var k :| 1 <= k < |b| && b[k] == p;
          assert Before(b[0], p) && p in a;
          var l :| 0 <= l < |a| && a[l] == p;
          assert a[1..][l - 1] == p;
        }
      }
      SamePlaces(a[1..], b[1..]);
    }
  }

  lemma PlacesListed<T(!new)>(items: seq<T>, at: Place -> Option<T>) returns (places: seq<Place>)
    requires Listed(items, at)
    ensures |places| == |items| && Increasing(places)
    ensures forall i :: 0 <= i < |places| ==> at(places[i]) == Some(items[i])
    ensures forall p :: p in places <==> at(p).Some?
  {
    places :| Lists(items, places, at);
    forall p | p in places
      ensures at(p).Some?
    {
      var i :| 0 <= i < |places| && places[i] == p;
    }
  }

  /** Only one sequence lists what `at` describes: multiplicity, order and contents are all pinned. */
  lemma ListedIsUnique<T(!new)>(a: seq<T>, b: seq<T>, at: Place -> Option<T>)
    requires Listed(a, at) && Listed(b, at)
    ensures a == b
  {
    var pa := PlacesListed(a, at);
    var pb := PlacesListed(b, at);
    hide Listed, Increasing;
    SamePlaces(pa, pb);
    forall i | 0 <= i < |a|
      ensures a[i] == b[i]
    {
      assert at(pa[i]) == Some(a[i]) && at(pb[i]) == Some(b[i]);
    }
  }
}
