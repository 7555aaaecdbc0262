/**
 * The in-memory catalog (`MeteoriteList`): records in insertion order, and
 * the three queries that select from it into sorted linked lists or pick
 * the nearest record. Also the linked-list constructor that copies a
 * catalog.
 *
 * The queries read the records' mutable attributes (mass, year, location),
 * so their specification functions read the records; none of them changes
 * a record or the catalog.
 */
module Catalog {
  import opened Results
  import opened Locations
  import opened Meteorites
  import opened SortedList

  // ----- Java `int` arithmetic -----

  const IntMin: int := -0x8000_0000
  const IntMax: int := 0x7fff_ffff

  predicate IsInt(x: int) { IntMin <= x <= IntMax }

  /** Two's-complement wrap-around of a 32-bit sum or difference. */
  function Wrap(x: int): (r: int)
    ensures IsInt(r) && (x - r) % 0x1_0000_0000 == 0
    ensures IsInt(x) ==> r == x
  {
    (x - IntMin) % 0x1_0000_0000 + IntMin
  }

  // ----- Selection -----

  /** The records among the first `n` of `s` whose flag in `keep` is set, in order. */
  function Select(s: seq<Meteorite>, keep: seq<bool>, n: nat): seq<Meteorite>
    requires |keep| == |s| && n <= |s|
  {
    if n == 0 then []
    else if keep[n - 1] then Select(s, keep, n - 1) + [s[n - 1]]
    else Select(s, keep, n - 1)
  }

  /** The selection holds exactly the flagged records among the first `n`. */
  lemma {:induction false} SelectMembers(s: seq<Meteorite>, keep: seq<bool>, n: nat)
    requires |keep| == |s| && n <= |s|
    ensures forall x :: x in Select(s, keep, n) ==> exists i :: 0 <= i < n && s[i] == x && keep[i]
    ensures forall i :: 0 <= i < n && keep[i] ==> s[i] in Select(s, keep, n)
  {
    if n > 0 {
      SelectMembers(s, keep, n - 1);
    }
  }

  /** Nothing is selected when no flag is set. */
  lemma {:induction false} SelectNone(s: seq<Meteorite>, keep: seq<bool>, n: nat)
    requires |keep| == |s| && n <= |s| && forall i :: 0 <= i < n ==> !keep[i]
    ensures Select(s, keep, n) == []
  {
    if n > 0 {
      SelectNone(s, keep, n - 1);
    }
  }

  // ----- getByMass -----

  /**
   * The mass window of `getByMass` computed without overflow: from
   * `mass - delta`, raised to zero, up to `mass + delta`.
   */
  predicate InMassRange(meteorMass: int, mass: int, delta: int)
  {
    var low := if mass - delta < 0 then 0 else mass - delta;
    low <= meteorMass <= mass + delta
  }

  /** The window is the documented one: a non-negative mass within `delta` of `mass`. */
  lemma InMassRangeMeaning(meteorMass: int, mass: int, delta: int)
    ensures InMassRange(meteorMass, mass, delta) <==>
      meteorMass >= 0 && mass - delta <= meteorMass <= mass + delta
  {
  }

  /**
   * The window as written: both bounds are `int`s, so `mass + delta`
   * wraps around when it exceeds `Integer.MAX_VALUE`.
   */
  predicate InMassRangeAsWritten(meteorMass: int, mass: int, delta: int)
  {
    var low := if Wrap(mass - delta) < 0 then 0 else Wrap(mass - delta);
    var high := Wrap(mass + delta);
    low <= meteorMass <= high
  }

  /** Without overflow the two windows agree. */
  lemma MassRangeAgreesWithoutOverflow(meteorMass: int, mass: int, delta: int)
    requires 0 <= mass && 0 <= delta && mass + delta <= IntMax
    ensures InMassRangeAsWritten(meteorMass, mass, delta) <==> InMassRange(meteorMass, mass, delta)
  {
  }

  /**
   * `getByMass(Integer.MAX_VALUE, 1)` misses a record of mass
   * `Integer.MAX_VALUE`: the upper bound wraps to `Integer.MIN_VALUE`.
   */
  lemma MassRangeOverflow()
    ensures !InMassRangeAsWritten(IntMax, IntMax, 1)
    ensures InMassRange(IntMax, IntMax, 1)
  {
  }

  /** Which records of `s` have a mass in the window. */
  function MassMask(s: seq<Meteorite>, mass: int, delta: int): (keep: seq<bool>)
    reads s
    ensures |keep| == |s| && forall i :: 0 <= i < |s| ==> keep[i] == InMassRange(s[i].mass, mass, delta)
  {
    seq(|s|, i requires 0 <= i < |s| reads s => InMassRange(s[i].mass, mass, delta))
  }

  /** The records of `s` whose mass lies in the window, in order. */
  function MassMatches(s: seq<Meteorite>, mass: int, delta: int): seq<Meteorite>
    reads s
  {
    Select(s, MassMask(s, mass, delta), |s|)
  }

  /** `getByMass` selects exactly the records whose mass is in the window. */
  lemma MassMatchesMembers(s: seq<Meteorite>, mass: int, delta: int)
    ensures forall x :: x in MassMatches(s, mass, delta) ==> x in s && InMassRange(x.mass, mass, delta)
    ensures forall i :: 0 <= i < |s| && InMassRange(s[i].mass, mass, delta) ==> s[i] in MassMatches(s, mass, delta)
  {
    SelectMembers(s, MassMask(s, mass, delta), |s|);
  }

  // ----- getByYear -----

  /** An unset year (zero) never matches; a set one matches when equal. */
  predicate YearMatch(meteorYear: int, year: int)
  {
    meteorYear != UnsetYear && meteorYear == year
  }

  /** Which records of `s` landed in `year`. */
  function YearMask(s: seq<Meteorite>, year: int): (keep: seq<bool>)
    reads s
    ensures |keep| == |s| && forall i :: 0 <= i < |s| ==> keep[i] == YearMatch(s[i].year, year)
  {
    seq(|s|, i requires 0 <= i < |s| reads s => YearMatch(s[i].year, year))
  }

  /** The records of `s` that landed in `year`, in order. */
  function YearMatches(s: seq<Meteorite>, year: int): seq<Meteorite>
    reads s
  {
    Select(s, YearMask(s, year), |s|)
  }

  /** `getByYear` selects exactly the records with a set year equal to `year`. */
  lemma YearMatchesMembers(s: seq<Meteorite>, year: int)
    ensures forall x :: x in YearMatches(s, year) ==> x in s && YearMatch(x.year, year)
    ensures forall i :: 0 <= i < |s| && YearMatch(s[i].year, year) ==> s[i] in YearMatches(s, year)
  {
    SelectMembers(s, YearMask(s, year), |s|);
  }

  /** Asking for year zero finds nothing, whatever the records. */
  lemma YearZeroMatchesNothing(s: seq<Meteorite>)
    ensures YearMatches(s, 0) == []
  {
    SelectNone(s, YearMask(s, 0), |s|);
  }

  /**
   * Adding the selected records to an empty linked list gives a sorted list
   * of selected records, holding the identity of every selected one; it is
   * empty exactly when nothing was selected.
   */
  lemma BuildSelection(selected: seq<Meteorite>)
    ensures Sorted(Build(selected))
    ensures forall x :: x in Build(selected) ==> x in selected
    ensures forall i :: 0 <= i < |selected| ==> HasKey(Build(selected), selected[i])
    ensures Build(selected) == [] <==> selected == []
  {
    BuildSorted(selected);
    BuildFromInput(selected);
    BuildCoversInput(selected);
  }

  /** Adding one more record to the input of `Build` adds it to the list. */
  lemma BuildSnoc(xs: seq<Meteorite>, m: Meteorite)
    ensures Build(xs + [m]) == Insert(Build(xs), m)
  {
    assert (xs + [m])[..|xs|] == xs;
  }

  /**
   * What `getByMass` returns for a valid query: a sorted list of records of
   * the catalog whose mass is in the window, holding the identity of every
   * such record; it is empty exactly when no mass is in the window.
   */
  lemma MassQueryResult(s: seq<Meteorite>, mass: int, delta: int)
    ensures Sorted(Build(MassMatches(s, mass, delta)))
    ensures forall x :: x in Build(MassMatches(s, mass, delta)) ==> x in s && InMassRange(x.mass, mass, delta)
    ensures forall i :: 0 <= i < |s| && InMassRange(s[i].mass, mass, delta) ==>
      HasKey(Build(MassMatches(s, mass, delta)), s[i])
    ensures MassMatches(s, mass, delta) == [] <==> forall i :: 0 <= i < |s| ==> !InMassRange(s[i].mass, mass, delta)
  {
    var selected := MassMatches(s, mass, delta);
    MassMatchesMembers(s, mass, delta);
    BuildSelection(selected);
    forall i | 0 <= i < |s| && InMassRange(s[i].mass, mass, delta)
      ensures HasKey(Build(selected), s[i])
    {
      var j :| 0 <= j < |selected| && selected[j] == s[i];
    }
    if selected != [] {
      assert selected[0] in selected;
      var i :| 0 <= i < |s| && s[i] == selected[0];
      assert InMassRange(s[i].mass, mass, delta);
    }
  }

  /**
   * What `getByYear` returns for a valid query: a sorted list of records of
   * the catalog that landed in `year`, holding the identity of every such
   * record; it is empty exactly when none did.
   */
  lemma YearQueryResult(s: seq<Meteorite>, year: int)
    ensures Sorted(Build(YearMatches(s, year)))
    ensures forall x :: x in Build(YearMatches(s, year)) ==> x in s && YearMatch(x.year, year)
    ensures forall i :: 0 <= i < |s| && YearMatch(s[i].year, year) ==> HasKey(Build(YearMatches(s, year)), s[i])
    ensures YearMatches(s, year) == [] <==> forall i :: 0 <= i < |s| ==> !YearMatch(s[i].year, year)
  {
    var selected := YearMatches(s, year);
    YearMatchesMembers(s, year);
    BuildSelection(selected);
    forall i | 0 <= i < |s| && YearMatch(s[i].year, year)
      ensures HasKey(Build(selected), s[i])
    {
      var j :| 0 <= j < |selected| && selected[j] == s[i];
    }
    if selected != [] {
      assert selected[0] in selected;
      var i :| 0 <= i < |s| && s[i] == selected[0];
      assert YearMatch(s[i].year, year);
    }
  }

  // ----- getByLocation -----

  /** The loop state of `getByLocation`: the best distance so far (-1 for none) and its record. */
  datatype Nearest = Nearest(distance: real, closest: Option<Meteorite>)

  const NoneYet := Nearest(-1.0, None)

  /** One iteration: a record without a location is skipped; the first located one is taken; later ones replace it only when strictly nearer. */
  function NearestStep(n: Nearest, m: Meteorite, from: Location, haversine: Metric): Nearest
    reads m
  {
    match m.loc
    case None => n
    case Some(l) =>
      if n.distance < 0.0 then Nearest(haversine(from, l), Some(m))
      else if n.distance > haversine(from, l) then Nearest(haversine(from, l), Some(m))
      else n
  }

  /** The loop state after the records of `s`, in order. */
  function NearestScan(s: seq<Meteorite>, from: Location, haversine: Metric): Nearest
    reads s
  {
    if s == [] then NoneYet
    else NearestStep(NearestScan(s[..|s| - 1], from, haversine), s[|s| - 1], from, haversine)
  }

  /** The distance from `from` to a located record. */
  function DistanceTo(m: Meteorite, from: Location, haversine: Metric): real
    reads m
    requires m.loc.Some?
  {
    haversine(from, m.loc.value)
  }

  /**
   * With a non-negative metric, the scan has found nothing exactly when no
   * record is located; otherwise it holds a located record of `s` at index
   * `k`, its distance, no located record is nearer, and every located record
   * before index `k` is strictly farther: the first of the nearest wins.
   */
  ghost predicate NearestOf(s: seq<Meteorite>, from: Location, haversine: Metric, n: Nearest)
    reads s
  {
    && (n.closest.None? <==> forall i :: 0 <= i < |s| ==> s[i].loc.None?)
    && (n.closest.None? ==> n.distance == -1.0)
    && (n.closest.Some? ==>
      && n.closest.value in s
      && n.closest.value.loc.Some?
      && n.distance == DistanceTo(n.closest.value, from, haversine)
      && (forall i :: 0 <= i < |s| && s[i].loc.Some? ==> n.distance <= DistanceTo(s[i], from, haversine))
      && (exists k :: 0 <= k < |s| && s[k] == n.closest.value &&
            forall i :: 0 <= i < k && s[i].loc.Some? ==> n.distance < DistanceTo(s[i], from, haversine)))
  }

  lemma {:induction false} NearestScanFindsNearest(s: seq<Meteorite>, from: Location, haversine: Metric)
    requires NonNegative(haversine)
    ensures NearestOf(s, from, haversine, NearestScan(s, from, haversine))
  {
    if s != [] {
      var t, m := s[..|s| - 1], s[|s| - 1];
      NearestScanFindsNearest(t, from, haversine);
      var n := NearestScan(t, from, haversine);
      var n' := NearestStep(n, m, from, haversine);
      assert forall i :: 0 <= i < |t| ==> t[i] == s[i];
      if n.closest.Some? {
        var k :| 0 <= k < |t| && t[k] == n.closest.value &&
          forall i :: 0 <= i < k && t[i].loc.Some? ==> n.distance < DistanceTo(t[i], from, haversine);
        assert n.distance >= 0.0;
        if n' == n {
          assert s[k] == n'.closest.value;
        } else {
          assert s[|s| - 1] == n'.closest.value;
        }
      } else if m.loc.Some? {
        assert s[|s| - 1] == n'.closest.value;
      }
    }
  }

  // ----- The catalog -----

  class MeteoriteList {
    var items: seq<Meteorite>

    /** An empty catalog. */
    constructor ()
      ensures items == []
    {
      items := [];
    }

    /** `ArrayList.add`: appends the record at the end. */
    method Add(m: Meteorite) returns (changed: bool)
      modifies this`items
      ensures items == old(items) + [m] && changed
    {
      items := items + [m];
      changed := true;
    }

    /**
     * `getByMass`: refuses a negative mass or delta; otherwise adds every
     * record whose mass is in the window to a new sorted linked list, and
     * returns that list, or none when nothing matched.
     */
    method GetByMass(mass: int, delta: int) returns (r: Result<Option<MeteoriteLinkedList>>)
      ensures mass < 0 || delta < 0 ==> r == Err(NegativeMass)
      ensures mass >= 0 && delta >= 0 ==> r.Ok?
      ensures r.Ok? ==> (r.value.None? <==> old(MassMatches(items, mass, delta)) == [])
      ensures r.Ok? && r.value.Some? ==>
        fresh(r.value.value.Repr) && HoldsBuilt(r.value.value, old(MassMatches(items, mass, delta)))
    {
      if mass < 0 || delta < 0 {
        return Err(NegativeMass);
      }
      ghost var keep := MassMask(items, mass, delta);
      var same, empty := CollectByMass(items, mass, delta, keep);
      if empty {
        return Ok(None);
      }
      return Ok(Some(same));
    }

    /**
     * `getByYear`: refuses a negative year; otherwise adds every record
     * whose year is set and equal to `year` to a new sorted linked list,
     * and returns that list, or none when nothing matched.
     */
    method GetByYear(year: int) returns (r: Result<Option<MeteoriteLinkedList>>)
      ensures year < 0 ==> r == Err(NegativeYear)
      ensures year >= 0 ==> r.Ok?
      ensures r.Ok? ==> (r.value.None? <==> old(YearMatches(items, year)) == [])
      ensures r.Ok? && r.value.Some? ==>
        fresh(r.value.value.Repr) && HoldsBuilt(r.value.value, old(YearMatches(items, year)))
    {
      if year < 0 {
        return Err(NegativeYear);
      }
      ghost var keep := YearMask(items, year);
      var same, empty := CollectByYear(items, year, keep);
      if empty {
        return Ok(None);
      }
      return Ok(Some(same));
    }

    /**
     * `getByLocation`: refuses an undefined location; otherwise the record
     * the scan settles on (none for an empty catalog or one without located
     * records).
     */
    method GetByLocation(loc: Option<Location>, haversine: Metric) returns (r: Result<Option<Meteorite>>)
      ensures loc.None? ==> r == Err(UndefinedLocation)
      ensures loc.Some? ==> r == Ok(NearestScan(items, loc.value, haversine).closest)
    {
      if loc.None? {
        return Err(UndefinedLocation);
      }
      if |items| == 0 {
        return Ok(None);
      }
      var distance := -1.0;
      var closest: Option<Meteorite> := None;
      for i := 0 to |items|
        invariant Nearest(distance, closest) == NearestScan(items[..i], loc.value, haversine)
      {
        assert items[..i + 1][..i] == items[..i];
        var location := items[i].loc;
        if location.None? {
          continue;
        } else if distance < 0.0 {
          distance := GetDistance(loc.value, location, haversine).value;
          closest := Some(items[i]);
        } else {
          var compDist := GetDistance(loc.value, location, haversine).value;
          if distance > compDist {
            distance := compDist;
            closest := Some(items[i]);
          }
        }
      }
      assert items[..|items|] == items;
      return Ok(closest);
    }
  }

  /** A valid linked list whose records are those `Build` makes of `selected`. */
  ghost predicate HoldsBuilt(list: MeteoriteLinkedList, selected: seq<Meteorite>)
    reads list, list.Repr
  {
    list.Valid() && list.Contents == Build(selected)
  }

  /** `add` of one more selected record to the list built from the earlier ones. */
  method AddSelected(list: MeteoriteLinkedList, m: Meteorite, ghost selected: seq<Meteorite>)
    requires HoldsBuilt(list, selected)
    modifies list.Repr
    ensures fresh(list.Repr - old(list.Repr)) && HoldsBuilt(list, selected + [m])
  {
    BuildSnoc(selected, m);
    var _ := list.Add(m);
  }

  /**
   * The loop of `getByMass`: adds each record whose mass is in the window
   * to a new linked list, noting whether any was added. `keep` flags those
   * records.
   */
  method CollectByMass(items: seq<Meteorite>, mass: int, delta: int, ghost keep: seq<bool>)
    returns (same: MeteoriteLinkedList, empty: bool)
    requires |keep| == |items|
    requires forall j :: 0 <= j < |items| ==> keep[j] == InMassRange(items[j].mass, mass, delta)
    ensures fresh(same.Repr) && HoldsBuilt(same, Select(items, keep, |items|))
    ensures empty <==> Select(items, keep, |items|) == []
  {
    same := new MeteoriteLinkedList();
    empty := true;
    ghost var selected := [];
    for i := 0 to |items|
      invariant fresh(same.Repr) && HoldsBuilt(same, selected)
      invariant selected == Select(items, keep, i)
      invariant empty <==> selected == []
    {
      var meteor := items[i];
      if InMassRange(meteor.mass, mass, delta) {
        AddSelected(same, meteor, selected);
        empty := false;
      }
      selected := Select(items, keep, i + 1);
    }
  }

  /**
   * The loop of `getByYear`: skips each record whose year is unset and adds
   * each one whose year equals `year` to a new linked list, noting whether
   * any was added. `keep` flags those records.
   */
  method CollectByYear(items: seq<Meteorite>, year: int, ghost keep: seq<bool>)
    returns (same: MeteoriteLinkedList, empty: bool)
    requires |keep| == |items|
    requires forall j :: 0 <= j < |items| ==> keep[j] == YearMatch(items[j].year, year)
    ensures fresh(same.Repr) && HoldsBuilt(same, Select(items, keep, |items|))
    ensures empty <==> Select(items, keep, |items|) == []
  {
    same := new MeteoriteLinkedList();
    empty := true;
    ghost var selected := [];
    for i := 0 to |items|
      invariant fresh(same.Repr) && HoldsBuilt(same, selected)
      invariant selected == Select(items, keep, i)
      invariant empty <==> selected == []
    {
      var meteor := items[i];
      if meteor.year == UnsetYear {
        selected := Select(items, keep, i + 1);
        continue;
      } else if year == meteor.year {
        AddSelected(same, meteor, selected);
        empty := false;
      }
      selected := Select(items, keep, i + 1);
    }
  }

  /**
   * The `MeteoriteLinkedList` constructor from a catalog: refuses a `null`
   * catalog; otherwise adds the records one after another to an empty list.
   */
  method LinkedListOf(list: MeteoriteList?) returns (r: Result<MeteoriteLinkedList>)
    ensures list == null ==> r == Err(EmptyList)
    ensures list != null ==> r.Ok? && fresh(r.value.Repr) && HoldsBuilt(r.value, old(list.items))
  {
    if list == null {
      return Err(EmptyList);
    }
    var items := list.items;
    var linked := new MeteoriteLinkedList();
    ghost var added := [];
    for i := 0 to |items|
      invariant fresh(linked.Repr) && HoldsBuilt(linked, added)
      invariant added == items[..i]
    {
      AddSelected(linked, items[i], added);
      added := added + [items[i]];
      assert added == items[..i + 1];
    }
    assert added == items;
    return Ok(linked);
  }
}
