/**
 * The sorted, duplicate-free singly linked list of records
 * (`MeteoriteLinkedList`).
 *
 * The list is a chain of `Node` objects from `head` to `tail`. Its abstract
 * value is `Contents`, the records from head to tail, kept strictly
 * increasing under `compareTo`: sorted, and no two records with the same
 * identity. `Insert` is the specification of `add`; `Build` that of adding a
 * whole sequence of records one after another; `Removed` and `Remaining`
 * that of `remove`; `Join` of `Lines` that of `toString`.
 */
module SortedList {
  import opened Results
  import opened JavaText
  import opened Meteorites

  /** Each record sorts strictly before the next under `compareTo`. */
  predicate Sorted(s: seq<Meteorite>)
  {
    forall i, j {:trigger s[i].CompareTo(s[j])} :: 0 <= i < |s| - 1 && j == i + 1 ==> s[i].CompareTo(s[j]) < 0
  }

  /** Every record sorts strictly before every later one. */
  predicate Increasing(s: seq<Meteorite>)
  {
    forall i, j {:trigger s[i].CompareTo(s[j])} :: 0 <= i < j < |s| ==> s[i].CompareTo(s[j]) < 0
  }

  /** Some record of `s` has the identity of `m`. */
  predicate HasKey(s: seq<Meteorite>, m: Meteorite)
  {
    exists i {:trigger m.CompareTo(s[i])} :: 0 <= i < |s| && m.CompareTo(s[i]) == 0
  }

  /** The comparison from the other side has the opposite sign. */
  lemma CompareToFlips(a: Meteorite, b: Meteorite)
    ensures b.CompareTo(a) == -a.CompareTo(b)
  {
    CompareKeysAntisymmetric(a.name, a.id, b.name, b.id);
  }

  lemma CompareToTransitive(a: Meteorite, b: Meteorite, c: Meteorite)
    requires a.CompareTo(b) < 0 && b.CompareTo(c) < 0
    ensures a.CompareTo(c) < 0
  {
    CompareKeysTransitive(a.name, a.id, b.name, b.id, c.name, c.id);
  }

  /** In a sorted list, every record sorts before every later one, by transitivity. */
  lemma {:induction false} SortedPair(s: seq<Meteorite>, i: nat, j: nat)
    requires Sorted(s) && i < j < |s|
    ensures s[i].CompareTo(s[j]) < 0
    decreases j - i
  {
    if i + 1 < j {
      SortedPair(s, i, j - 1);
      CompareToTransitive(s[i], s[j - 1], s[j]);
    }
  }

  /** The two readings of sortedness agree, since `compareTo` is transitive. */
  lemma SortedIncreasing(s: seq<Meteorite>)
    ensures Sorted(s) <==> Increasing(s)
  {
    if Sorted(s) {
      forall i, j | 0 <= i < j < |s| ensures s[i].CompareTo(s[j]) < 0 {
        SortedPair(s, i, j);
      }
    }
  }


  /**
   * In a sorted list, a record that sorts before the element at `k` sorts
   * before every later one too; this is why `remove` may stop early.
   */
  lemma BeforeAllFrom(s: seq<Meteorite>, m: Meteorite, k: nat)
    requires Increasing(s) && k < |s| && m.CompareTo(s[k]) < 0
    ensures forall j :: k <= j < |s| ==> m.CompareTo(s[j]) < 0
  {
    forall j | k < j < |s| ensures m.CompareTo(s[j]) < 0 {
      CompareToTransitive(m, s[k], s[j]);
    }
  }

  /** `add` on a list with contents `s`: walk while `m` is greater; reject an equal record. */
  function Insert(s: seq<Meteorite>, m: Meteorite): seq<Meteorite>
  {
    if s == [] then [m]
    else if m.CompareTo(s[0]) == 0 then s
    else if m.CompareTo(s[0]) < 0 then [m] + s
    else [s[0]] + Insert(s[1..], m)
  }

  /** Index of the first record that does not sort before `m`. */
  function Position(s: seq<Meteorite>, m: Meteorite): (k: nat)
    ensures k <= |s|
  {
    if s == [] || s[0].CompareTo(m) >= 0 then 0 else 1 + Position(s[1..], m)
  }

  lemma IncreasingTail(s: seq<Meteorite>)
    requires Increasing(s) && s != []
    ensures Increasing(s[1..])
  {
    forall i, j | 0 <= i < j < |s[1..]| ensures s[1..][i].CompareTo(s[1..][j]) < 0 {
      assert s[1..][i] == s[i + 1] && s[1..][j] == s[j + 1];
    }
  }

  lemma HasKeyTail(s: seq<Meteorite>, m: Meteorite)
    requires s != [] && m.CompareTo(s[0]) != 0
    ensures HasKey(s, m) <==> HasKey(s[1..], m)
  {
    var t := s[1..];
    if HasKey(s, m) {
      var i :| 0 <= i < |s| && m.CompareTo(s[i]) == 0;
      assert i > 0 && t[i - 1] == s[i];
      assert m.CompareTo(t[i - 1]) == 0;
    }
    if HasKey(t, m) {
      var i :| 0 <= i < |t| && m.CompareTo(t[i]) == 0;
      assert s[i + 1] == t[i];
      assert m.CompareTo(s[i + 1]) == 0;
    }
  }

  /** Every record before `Position` sorts before `m`. */
  lemma {:induction false} BeforePosition(s: seq<Meteorite>, m: Meteorite)
    ensures forall i :: 0 <= i < Position(s, m) ==> s[i].CompareTo(m) < 0
  {
    if s != [] && s[0].CompareTo(m) < 0 {
      BeforePosition(s[1..], m);
      forall i | 0 <= i < Position(s, m) ensures s[i].CompareTo(m) < 0 {
        if i > 0 { assert s[i] == s[1..][i - 1]; }
      }
    }
  }

  /** On a sorted list, `Insert` leaves the list alone when a record with the same identity is present. */
  lemma {:induction false} InsertPresent(s: seq<Meteorite>, m: Meteorite)
    requires Increasing(s) && HasKey(s, m)
    ensures Insert(s, m) == s
  {
    CompareToFlips(m, s[0]);
    if m.CompareTo(s[0]) < 0 {
      BeforeAllFrom(s, m, 0);
    } else if m.CompareTo(s[0]) > 0 {
      IncreasingTail(s);
      HasKeyTail(s, m);
      InsertPresent(s[1..], m);
    }
  }

  /**
   * On a sorted list without `m`'s identity, `Insert` puts `m` at its unique
   * sorted position: after every smaller record, before every greater one.
   */
  lemma {:induction false} InsertAbsent(s: seq<Meteorite>, m: Meteorite)
    requires Increasing(s) && !HasKey(s, m)
    ensures Insert(s, m) == s[..Position(s, m)] + [m] + s[Position(s, m)..]
    ensures forall i :: Position(s, m) <= i < |s| ==> m.CompareTo(s[i]) < 0
  {
    if s != [] {
      CompareToFlips(m, s[0]);
      assert m.CompareTo(s[0]) != 0;
      if m.CompareTo(s[0]) < 0 {
        BeforeAllFrom(s, m, 0);
      } else {
        IncreasingTail(s);
        HasKeyTail(s, m);
        InsertAbsent(s[1..], m);
        var k := Position(s[1..], m);
        assert s[..k + 1] == [s[0]] + s[1..][..k];
        assert s[k + 1..] == s[1..][k..];
        forall i | k + 1 <= i < |s| ensures m.CompareTo(s[i]) < 0 {
          assert s[i] == s[1..][i - 1];
        }
      }
    }
  }

  /** Both cases of `add` on a sorted list. */
  lemma InsertPlacement(s: seq<Meteorite>, m: Meteorite)
    requires Sorted(s)
    ensures HasKey(s, m) ==> Insert(s, m) == s
    ensures !HasKey(s, m) ==> Insert(s, m) == s[..Position(s, m)] + [m] + s[Position(s, m)..]
    ensures forall i :: 0 <= i < Position(s, m) ==> s[i].CompareTo(m) < 0
    ensures !HasKey(s, m) ==> forall i :: Position(s, m) <= i < |s| ==> m.CompareTo(s[i]) < 0
  {
    SortedIncreasing(s);
    BeforePosition(s, m);
    if HasKey(s, m) { InsertPresent(s, m); } else { InsertAbsent(s, m); }
  }

  /** On a sorted list, `Insert` grows the list by one exactly when `m`'s identity is absent. */
  lemma InsertLength(s: seq<Meteorite>, m: Meteorite)
    requires Sorted(s)
    ensures |Insert(s, m)| == if HasKey(s, m) then |s| else |s| + 1
  {
    InsertPlacement(s, m);
  }

  /** `Position` is the first index whose record does not sort before `m`. */
  lemma {:induction false} PositionIs(s: seq<Meteorite>, k: nat, m: Meteorite)
    requires k <= |s|
    requires forall j :: 0 <= j < k ==> s[j].CompareTo(m) < 0
    requires k == |s| || s[k].CompareTo(m) >= 0
    ensures Position(s, m) == k
  {
    if k > 0 {
      PositionIs(s[1..], k - 1, m);
    }
  }

  /**
   * Where `add`'s walk stops: after the records that sort before `m`, at
   * the end or at a record not sorting before it. An equal record there
   * means `m`'s identity is present and nothing changes; otherwise `m` goes
   * in at that point and its identity was absent.
   */
  lemma InsertAt(s: seq<Meteorite>, k: nat, m: Meteorite)
    requires Sorted(s) && k <= |s|
    requires forall j :: 0 <= j < k ==> s[j].CompareTo(m) < 0
    requires k == |s| || m.CompareTo(s[k]) <= 0
    ensures k < |s| && m.CompareTo(s[k]) == 0 ==> HasKey(s, m) && Insert(s, m) == s
    ensures !(k < |s| && m.CompareTo(s[k]) == 0) ==> !HasKey(s, m) && Insert(s, m) == s[..k] + [m] + s[k..]
    ensures !(k < |s| && m.CompareTo(s[k]) == 0) ==> Sorted(s[..k] + [m] + s[k..])
  {
    InsertSorted(s, m);
    SortedIncreasing(s);
    if k < |s| {
      CompareToFlips(m, s[k]);
    }
    PositionIs(s, k, m);
    InsertPlacement(s, m);
    if !(k < |s| && m.CompareTo(s[k]) == 0) {
      forall j | 0 <= j < |s| ensures m.CompareTo(s[j]) != 0 {
        if j < k {
          CompareToFlips(s[j], m);
        } else {
          BeforeAllFrom(s, m, k);
        }
      }
    }
  }

  /** A record equal to the one at `k`, all before which sort before it, is already present: inserting it changes nothing. */
  lemma InsertExisting(s: seq<Meteorite>, k: nat, m: Meteorite)
    requires Sorted(s) && k < |s|
    requires forall j :: 0 <= j < k ==> m.CompareTo(s[j]) > 0
    requires m.CompareTo(s[k]) == 0
    ensures HasKey(s, m) && Insert(s, m) == s
  {
    forall j | 0 <= j < k ensures s[j].CompareTo(m) < 0 {
      CompareToFlips(m, s[j]);
    }
    InsertAt(s, k, m);
  }

  /** `Insert` keeps a list sorted. */
  lemma InsertSorted(s: seq<Meteorite>, m: Meteorite)
    requires Sorted(s)
    ensures Sorted(Insert(s, m))
  {
    InsertPlacement(s, m);
    if !HasKey(s, m) {
      var k := Position(s, m);
      var t := s[..k] + [m] + s[k..];
      SortedIncreasing(s);
      InsertAtIndex(s, k, m);
      assert Increasing(t) by {
        forall i, j | 0 <= i < j < |t| ensures t[i].CompareTo(t[j]) < 0 {
          if i < k < j {
            CompareToTransitive(t[i], m, t[j]);
          }
        }
      }
      SortedIncreasing(t);
    }
  }

  /** Inserting never loses a record, adds only `m`, and afterwards `m`'s identity is present. */
  lemma InsertElements(s: seq<Meteorite>, m: Meteorite)
    requires Sorted(s)
    ensures multiset(Insert(s, m)) == if HasKey(s, m) then multiset(s) else multiset(s) + multiset{m}
    ensures HasKey(Insert(s, m), m)
  {
    InsertPlacement(s, m);
    if !HasKey(s, m) {
      var k := Position(s, m);
      var t := Insert(s, m);
      assert t == s[..k] + [m] + s[k..];
      assert s == s[..k] + s[k..];
      assert multiset(t) == multiset(s[..k]) + multiset{m} + multiset(s[k..]);
      assert t[k] == m;
      CompareKeysZero(m.name, m.id, m.name, m.id);
      assert m.CompareTo(t[k]) == 0;
    }
  }

  /** Inserting never drops a record. */
  lemma {:induction false} InsertKeepsRecords(s: seq<Meteorite>, m: Meteorite)
    ensures forall y :: y in s ==> y in Insert(s, m)
  {
    if s != [] && m.CompareTo(s[0]) > 0 {
      InsertKeepsRecords(s[1..], m);
      forall y | y in s ensures y in Insert(s, m) {
        if y != s[0] {
          assert y in s[1..];
        }
      }
    }
  }

  /** Inserting keeps every identity that was present. */
  lemma InsertKeepsKeys(s: seq<Meteorite>, m: Meteorite, x: Meteorite)
    requires HasKey(s, x)
    ensures HasKey(Insert(s, m), x)
  {
    var j :| 0 <= j < |s| && x.CompareTo(s[j]) == 0;
    var t := Insert(s, m);
    InsertKeepsRecords(s, m);
    assert s[j] in t;
    var i :| 0 <= i < |t| && t[i] == s[j];
    assert x.CompareTo(t[i]) == 0;
  }


  /** Taking out position `k` of `s`, written through the tail `s[1..]`. */
  lemma ConsRemoveAt<T>(s: seq<T>, k: nat)
    requires 0 < k < |s|
    ensures [s[0]] + (s[1..][..k - 1] + s[1..][k..]) == s[..k] + s[k + 1..]
  {
    assert s[1..][..k - 1] == s[1..k];
  }

  /** Putting `m` in at position `k` of `s` shifts every later element up by one. */
  lemma InsertAtIndex<T>(s: seq<T>, k: nat, m: T)
    requires k <= |s|
    ensures |s[..k] + [m] + s[k..]| == |s| + 1
    ensures forall j {:trigger (s[..k] + [m] + s[k..])[j]} :: 0 <= j <= |s| ==>
      (s[..k] + [m] + s[k..])[j] == if j < k then s[j] else if j == k then m else s[j - 1]
  {
  }

  /** Taking out position `k` of `s` shifts every later element down by one. */
  lemma RemoveAtIndex<T>(s: seq<T>, k: nat)
    requires k < |s|
    ensures |s[..k] + s[k + 1..]| == |s| - 1
    ensures forall j {:trigger (s[..k] + s[k + 1..])[j]} :: 0 <= j < |s| - 1 ==>
      (s[..k] + s[k + 1..])[j] == if j < k then s[j] else s[j + 1]
  {
  }

  /** Taking out position `k` of `s` loses exactly one occurrence of `s[k]`. */
  lemma MultisetRemoveAt<T>(s: seq<T>, k: nat)
    requires k < |s|
    ensures multiset(s[..k] + s[k + 1..]) + multiset{s[k]} == multiset(s)
  {
    assert s == s[..k] + [s[k]] + s[k + 1..];
  }

  /** The tail of `s` with `m` put in at position `k > 0`: the tail of `s` with `m` at `k - 1`. */
  lemma InsertedTail<T>(s: seq<T>, k: nat, m: T)
    requires 0 < k <= |s|
    ensures var t := s[..k] + [m] + s[k..];
      t[0] == s[0] && t[1..][k - 1] == m && t[1..][..k - 1] + t[1..][k..] == s[1..] &&
      forall j :: 0 <= j < k - 1 ==> t[1..][j] == s[j + 1]
  {
    var t := s[..k] + [m] + s[k..];
    assert t[1..] == s[1..k] + [m] + s[k..];
  }

  /** Taking out the first position of `s`. */
  lemma RemoveFirst<T>(s: seq<T>)
    requires s != []
    ensures s[..0] + s[1..] == s[1..] && [s[0]] + s[1..] == s
  {
  }

  /** `remove`'s test for the head: the very same name, case included, and the same id. */
  predicate SameIdentity(m: Meteorite, name: string, id: int)
  {
    m.name == name && m.id == id
  }

  /** The record of `s` with the key `(name, id)` under `compareTo`, the first one if several. */
  function Lookup(s: seq<Meteorite>, name: string, id: PosInt): (r: Option<Meteorite>)
    ensures r.Some? ==> r.value in s && CompareKeys(name, id, r.value.name, r.value.id) == 0
  {
    if s == [] then None
    else if CompareKeys(name, id, s[0].name, s[0].id) == 0 then Some(s[0])
    else Lookup(s[1..], name, id)
  }

  /** `s` without the record `Lookup` finds; `s` itself when there is none. */
  function Delete(s: seq<Meteorite>, name: string, id: PosInt): seq<Meteorite>
  {
    if s == [] then []
    else if CompareKeys(name, id, s[0].name, s[0].id) == 0 then s[1..]
    else [s[0]] + Delete(s[1..], name, id)
  }

  /**
   * What `remove(name, id)` returns on a list with contents `s`: nothing for
   * an empty list; the head when its name and id are exactly the ones given;
   * otherwise a refusal of an invalid identity, or the later record whose
   * key compares equal, if any. The head is never compared with `compareTo`.
   */
  function Removed(s: seq<Meteorite>, name: string, id: int): Result<Option<Meteorite>>
  {
    if s == [] then Ok(None)
    else if SameIdentity(s[0], name, id) then Ok(Some(s[0]))
    else if !ValidIdentity(name, id) then Err(InvalidIdentity)
    else Ok(Lookup(s[1..], name, id))
  }

  /** The contents `remove(name, id)` leaves, in the same cases as `Removed`. */
  function Remaining(s: seq<Meteorite>, name: string, id: int): seq<Meteorite>
  {
    if s == [] then []
    else if SameIdentity(s[0], name, id) then s[1..]
    else if !ValidIdentity(name, id) then s
    else [s[0]] + Delete(s[1..], name, id)
  }

  /**
   * When no record before `k` has the key and the one at `k` has it, `Lookup`
   * finds that one and `Delete` takes out exactly position `k`.
   */
  lemma {:induction false} DeleteAt(s: seq<Meteorite>, k: nat, name: string, id: PosInt)
    requires k < |s| && CompareKeys(name, id, s[k].name, s[k].id) == 0
    requires forall j :: 0 <= j < k ==> CompareKeys(name, id, s[j].name, s[j].id) != 0
    ensures Lookup(s, name, id) == Some(s[k])
    ensures Delete(s, name, id) == s[..k] + s[k + 1..]
  {
    if k == 0 {
      RemoveFirst(s);
    } else {
      var t := s[1..];
      forall j | 0 <= j < k - 1 ensures CompareKeys(name, id, t[j].name, t[j].id) != 0 {
        assert t[j] == s[j + 1];
      }
      assert t[k - 1] == s[k];
      DeleteAt(t, k - 1, name, id);
      assert CompareKeys(name, id, s[0].name, s[0].id) != 0;
      assert Lookup(s, name, id) == Lookup(t, name, id) && Delete(s, name, id) == [s[0]] + Delete(t, name, id);
      ConsRemoveAt(s, k);
    }
  }

  /** When no record has the key, `Delete` leaves the sequence as it is. */
  lemma {:induction false} DeleteNone(s: seq<Meteorite>, name: string, id: PosInt)
    requires forall j :: 0 <= j < |s| ==> CompareKeys(name, id, s[j].name, s[j].id) != 0
    ensures Lookup(s, name, id) == None
    ensures Delete(s, name, id) == s
  {
    if s != [] {
      var t := s[1..];
      assert CompareKeys(name, id, s[0].name, s[0].id) != 0;
      forall j | 0 <= j < |t| ensures CompareKeys(name, id, t[j].name, t[j].id) != 0 {
        assert t[j] == s[j + 1];
      }
      DeleteNone(t, name, id);
      assert [s[0]] + t == s;
    }
  }

  /** Where `Lookup` finds its record, or `|s|` when there is none; `Delete` takes out that position. */
  lemma {:induction false} LookupAt(s: seq<Meteorite>, name: string, id: PosInt) returns (k: nat)
    ensures k <= |s|
    ensures k < |s| ==> Lookup(s, name, id) == Some(s[k]) && Delete(s, name, id) == s[..k] + s[k + 1..]
    ensures k == |s| ==> Lookup(s, name, id) == None && Delete(s, name, id) == s
  {
    if s == [] {
      k := 0;
    } else if CompareKeys(name, id, s[0].name, s[0].id) == 0 {
      k := 0;
      RemoveFirst(s);
    } else {
      var t := s[1..];
      var k' := LookupAt(t, name, id);
      k := k' + 1;
      assert Lookup(s, name, id) == Lookup(t, name, id) && Delete(s, name, id) == [s[0]] + Delete(t, name, id);
      if k' < |t| {
        assert s[k] == t[k'];
        ConsRemoveAt(s, k);
      } else {
        assert [s[0]] + t == s;
      }
    }
  }

  /** Removing one record from a sorted sequence leaves it sorted. */
  lemma SortedRemoveAt(s: seq<Meteorite>, k: nat)
    requires Sorted(s) && k < |s|
    ensures Sorted(s[..k] + s[k + 1..])
  {
    var t := s[..k] + s[k + 1..];
    RemoveAtIndex(s, k);
    SortedIncreasing(s);
    assert Increasing(t) by {
      forall i, j | 0 <= i < j < |t| ensures t[i].CompareTo(t[j]) < 0 {
        if j < k {
          assert t[i] == s[i] && t[j] == s[j];
        } else if i < k {
          assert t[i] == s[i] && t[j] == s[j + 1];
        } else {
          assert t[i] == s[i + 1] && t[j] == s[j + 1];
        }
      }
    }
    SortedIncreasing(t);
  }

  /**
   * The position `remove(name, id)` takes out of a list with contents `s`,
   * or `|s|` when it takes out nothing.
   */
  lemma RemovalIndex(s: seq<Meteorite>, name: string, id: int) returns (k: nat)
    ensures k <= |s|
    ensures k < |s| ==> Removed(s, name, id) == Ok(Some(s[k])) && Remaining(s, name, id) == s[..k] + s[k + 1..]
    ensures k == |s| ==> Remaining(s, name, id) == s && !(Removed(s, name, id).Ok? && Removed(s, name, id).value.Some?)
  {
    if s == [] || SameIdentity(s[0], name, id) {
      k := 0;
      if s != [] {
        RemoveFirst(s);
      }
    } else if !ValidIdentity(name, id) {
      k := |s|;
    } else {
      var k' := LookupAt(s[1..], name, id);
      k := k' + 1;
      RemoveFirst(s);
      if k' < |s| - 1 {
        ConsRemoveAt(s, k);
      }
    }
  }

  /**
   * `remove` keeps the list sorted and takes out exactly the record it
   * returns; when it returns none, the contents are unchanged.
   */
  lemma RemoveProperties(s: seq<Meteorite>, name: string, id: int)
    requires Sorted(s)
    ensures Sorted(Remaining(s, name, id))
    ensures Removed(s, name, id).Ok? && Removed(s, name, id).value.Some? ==>
      var x := Removed(s, name, id).value.value;
      x in s && multiset(Remaining(s, name, id)) + multiset{x} == multiset(s)
    ensures !(Removed(s, name, id).Ok? && Removed(s, name, id).value.Some?) ==> Remaining(s, name, id) == s
  {
    var k := RemovalIndex(s, name, id);
    if k < |s| {
      SortedRemoveAt(s, k);
      MultisetRemoveAt(s, k);
    }
  }

  /**
   * Adding a record that was absent and then removing it by its identity
   * gives back the list and the record.
   */
  lemma RemoveAfterInsert(s: seq<Meteorite>, m: Meteorite)
    requires Sorted(s) && !HasKey(s, m) && ValidIdentity(m.name, m.id)
    ensures Removed(Insert(s, m), m.name, m.id) == Ok(Some(m))
    ensures Remaining(Insert(s, m), m.name, m.id) == s
  {
    var k := Position(s, m);
    var t := Insert(s, m);
    if k == 0 {
      assert t == [m] + s by {
        InsertPlacement(s, m);
      }
    } else {
      var u := t[1..];
      assert t[0] == s[0] && u[k - 1] == m && u[..k - 1] + u[k..] == s[1..] by {
        InsertPlacement(s, m);
        InsertedTail(s, k, m);
      }
      assert !SameIdentity(s[0], m.name, m.id) by {
        BeforePosition(s, m);
        CompareKeysZero(s[0].name, s[0].id, m.name, m.id);
      }
      assert Lookup(u, m.name, m.id) == Some(m) && Delete(u, m.name, m.id) == s[1..] by {
        InsertPlacement(s, m);
        InsertedTail(s, k, m);
        BeforePosition(s, m);
        forall j | 0 <= j < k - 1 ensures CompareKeys(m.name, m.id, u[j].name, u[j].id) != 0 {
          CompareToFlips(s[j + 1], m);
        }
        CompareKeysZero(m.name, m.id, m.name, m.id);
        DeleteAt(u, k - 1, m.name, m.id);
      }
      RemoveFirst(s);
    }
  }

  /**
   * `remove`'s walk stopped, past the records sorting before `key`, at one
   * that compares equal: that record is the one removed.
   */
  lemma RemoveFound(s: seq<Meteorite>, i: nat, key: Meteorite)
    requires i + 1 < |s| && !SameIdentity(s[0], key.name, key.id) && ValidIdentity(key.name, key.id)
    requires forall j :: 1 <= j <= i ==> key.CompareTo(s[j]) > 0
    requires key.CompareTo(s[i + 1]) == 0
    ensures Removed(s, key.name, key.id) == Ok(Some(s[i + 1]))
    ensures Remaining(s, key.name, key.id) == s[..i + 1] + s[i + 2..]
  {
    var t := s[1..];
    assert Lookup(t, key.name, key.id) == Some(s[i + 1]) && Delete(t, key.name, key.id) == t[..i] + t[i + 1..] by {
      forall j | 0 <= j < i ensures CompareKeys(key.name, key.id, t[j].name, t[j].id) != 0 {
        assert t[j] == s[j + 1];
      }
      assert t[i] == s[i + 1];
      DeleteAt(t, i, key.name, key.id);
    }
    ConsRemoveAt(s, i + 1);
  }

  /**
   * `remove`'s walk stopped, past the records sorting before `key`, at the
   * end or at one sorting after it: in a sorted list no record has the key,
   * so nothing is removed. This is why the walk may stop early.
   */
  lemma RemoveMissing(s: seq<Meteorite>, i: nat, key: Meteorite)
    requires Sorted(s) && i < |s| && !SameIdentity(s[0], key.name, key.id) && ValidIdentity(key.name, key.id)
    requires forall j :: 1 <= j <= i ==> key.CompareTo(s[j]) > 0
    requires i + 1 == |s| || key.CompareTo(s[i + 1]) < 0
    ensures Removed(s, key.name, key.id) == Ok(None)
    ensures Remaining(s, key.name, key.id) == s
  {
    var t := s[1..];
    assert forall j :: 0 <= j < |t| ==> CompareKeys(key.name, key.id, t[j].name, t[j].id) != 0 by {
      if i + 1 < |s| {
        SortedIncreasing(s);
        BeforeAllFrom(s, key, i + 1);
      }
      forall j | 0 <= j < |t| ensures CompareKeys(key.name, key.id, t[j].name, t[j].id) != 0 {
        assert t[j] == s[j + 1];
      }
    }
    DeleteNone(t, key.name, key.id);
    RemoveFirst(s);
  }

  /** The list built by adding `xs` one after another to an empty list. */
  function Build(xs: seq<Meteorite>): seq<Meteorite>
  {
    if xs == [] then [] else Insert(Build(xs[..|xs| - 1]), xs[|xs| - 1])
  }

  /** The built list is sorted, and it is empty only when `xs` is. */
  lemma {:induction false} BuildSorted(xs: seq<Meteorite>)
    ensures Sorted(Build(xs))
    ensures Build(xs) == [] <==> xs == []
  {
    if xs != [] {
      BuildSorted(xs[..|xs| - 1]);
      InsertSorted(Build(xs[..|xs| - 1]), xs[|xs| - 1]);
      InsertElements(Build(xs[..|xs| - 1]), xs[|xs| - 1]);
    }
  }

  /** `Insert` adds at most one record, and only `m`. */
  lemma {:induction false} InsertAddsOnlyM(s: seq<Meteorite>, m: Meteorite)
    ensures |Insert(s, m)| <= |s| + 1
    ensures forall y :: y in Insert(s, m) ==> y in s || y == m
  {
    if s != [] && m.CompareTo(s[0]) > 0 {
      InsertAddsOnlyM(s[1..], m);
      assert forall y :: y in s[1..] ==> y in s;
    }
  }

  /** The built list holds only records of `xs`, and no more of them than `xs` has. */
  lemma {:induction false} BuildFromInput(xs: seq<Meteorite>)
    ensures forall m :: m in Build(xs) ==> m in xs
    ensures |Build(xs)| <= |xs|
  {
    if xs != [] {
      var init, last := xs[..|xs| - 1], xs[|xs| - 1];
      BuildFromInput(init);
      InsertAddsOnlyM(Build(init), last);
      assert forall m :: m in init ==> m in xs;
    }
  }

  /** Every record of `xs` has its identity in the built list. */
  lemma {:induction false} BuildCoversInput(xs: seq<Meteorite>)
    ensures forall i :: 0 <= i < |xs| ==> HasKey(Build(xs), xs[i])
  {
    if xs != [] {
      var init, last := xs[..|xs| - 1], xs[|xs| - 1];
      BuildCoversInput(init);
      BuildSorted(init);
      var b := Build(init);
      InsertElements(b, last);
      forall i | 0 <= i < |xs| - 1 ensures HasKey(Build(xs), xs[i]) {
        assert xs[i] == init[i];
        InsertKeepsKeys(b, last, xs[i]);
      }
    }
  }

  /** The text of each record, in order. */
  function Lines(s: seq<Meteorite>): (r: seq<string>)
    reads s
    ensures |r| == |s| && forall i {:trigger s[i].ToString()} :: 0 <= i < |s| ==> r[i] == s[i].ToString()
  {
    seq(|s|, i requires 0 <= i < |s| reads s => s[i].ToString())
  }

  /** `toString`'s join: the lines separated by single line breaks, with none at the end. */
  function Join(lines: seq<string>): string
  {
    if lines == [] then ""
    else if |lines| == 1 then lines[0]
    else Join(lines[..|lines| - 1]) + "\n" + lines[|lines| - 1]
  }

  /** Joining two non-empty parts puts exactly one line break between them. */
  lemma {:induction false} JoinAppend(a: seq<string>, b: seq<string>)
    requires a != [] && b != []
    ensures Join(a + b) == Join(a) + "\n" + Join(b)
  {
    var ab := a + b;
    if |b| > 1 {
      assert ab[..|ab| - 1] == a + b[..|b| - 1];
      JoinAppend(a, b[..|b| - 1]);
    } else {
      assert ab[..|ab| - 1] == a;
    }
  }

  /** The joined text has one line break fewer than it has lines, when the lines hold none. */
  lemma {:induction false} JoinBreaks(lines: seq<string>)
    requires forall i :: 0 <= i < |lines| ==> '\n' !in lines[i]
    ensures lines != [] ==> multiset(Join(lines))['\n'] == |lines| - 1
    ensures lines == [] ==> Join(lines) == ""
  {
    if |lines| > 1 {
      JoinBreaks(lines[..|lines| - 1]);
      var last := lines[|lines| - 1];
      assert multiset(last)['\n'] == 0;
    }
  }

  /** One more line at the end of the text. */
  lemma JoinStep(lines: seq<string>, i: nat)
    requires 0 < i < |lines|
    ensures Join(lines[..i + 1]) == Join(lines[..i]) + "\n" + lines[i]
  {
    assert lines[..i + 1][..i] == lines[..i];
  }

  class Node {
    const data: Meteorite
    var next: Node?

    constructor (data: Meteorite)
      ensures this.data == data && next == null
    {
      this.data := data;
      next := null;
    }

    /** `toString`: the text of the record held. */
    function ToString(): string
      reads data
    {
      data.ToString()
    }

    /** `equals`: the same node, or a node holding an equal record. */
    predicate Equals(o: Node?)
    {
      this == o || (o != null && data.Equals(o.data))
    }

    /** `compareTo`: the order of the records held. */
    function CompareTo(n: Node): int
    {
      data.CompareTo(n.data)
    }
  }

  /** Node order is consistent with node equality, as it is for the records held. */
  lemma NodeCompareToAgreesWithEquals(a: Node, b: Node)
    ensures a.CompareTo(b) == 0 <==> a.Equals(b)
  {
    CompareToAgreesWithEquals(a.data, b.data);
    if a == b {
      CompareToAgreesWithEquals(a.data, a.data);
    }
  }

  /** Two positions of a chain hold different nodes: a repeated node would make the chain cyclic. */
  lemma {:induction false} ChainDistinctAt(nodes: seq<Node>, i: nat, j: nat)
    requires i < j < |nodes|
    requires forall k {:trigger nodes[k].next} :: 0 <= k < |nodes| - 1 ==> nodes[k].next == nodes[k + 1]
    requires nodes[|nodes| - 1].next == null
    ensures nodes[i] != nodes[j]
    decreases |nodes| - j
  {
    assert nodes[i].next == nodes[i + 1];
    if j < |nodes| - 1 {
      ChainDistinctAt(nodes, i + 1, j + 1);
    }
  }

  /** No other position of a chain holds the node at `i`, so updating it leaves the others alone. */
  lemma ChainDistinct(nodes: seq<Node>, i: nat)
    requires forall k {:trigger nodes[k].next} :: 0 <= k < |nodes| - 1 ==> nodes[k].next == nodes[k + 1]
    requires i < |nodes| && nodes[|nodes| - 1].next == null
    ensures forall k :: 0 <= k < |nodes| && k != i ==> nodes[k] != nodes[i]
  {
    forall k | 0 <= k < |nodes| && k != i ensures nodes[k] != nodes[i] {
      if k < i { ChainDistinctAt(nodes, k, i); } else { ChainDistinctAt(nodes, i, k); }
    }
  }

  /** `nodes` is a chain: each node's `next` is the following node, and the last one ends it. */
  ghost predicate Chain(nodes: seq<Node>)
    reads nodes
  {
    && nodes != []
    && (forall k {:trigger nodes[k].next} :: 0 <= k < |nodes| - 1 ==> nodes[k].next == nodes[k + 1])
    && nodes[|nodes| - 1].next == null
  }

  /** `lines` holds the text of each node's record, in order. */
  ghost predicate RendersAs(nodes: seq<Node>, lines: seq<string>)
    reads set k | 0 <= k < |nodes| :: nodes[k].data
  {
    |lines| == |nodes| && forall k {:trigger nodes[k].ToString()} :: 0 <= k < |nodes| ==> lines[k] == nodes[k].ToString()
  }

  /** The nodes, all in `repr`, hold the records of `contents` in order, and those are sorted. */
  ghost predicate Holds(nodes: seq<Node>, contents: seq<Meteorite>, repr: set<object>)
  {
    && |nodes| == |contents|
    && (forall k :: 0 <= k < |nodes| ==> nodes[k] in repr && nodes[k].data == contents[k])
    && Sorted(contents)
  }

  /** Taking the same position out of the nodes and the records keeps them matched and sorted. */
  lemma HoldsRemoveAt(nodes: seq<Node>, contents: seq<Meteorite>, repr: set<object>, k: nat)
    requires Holds(nodes, contents, repr) && k < |nodes|
    ensures Holds(nodes[..k] + nodes[k + 1..], contents[..k] + contents[k + 1..], repr)
  {
    SortedRemoveAt(contents, k);
    RemoveAtIndex(nodes, k);
    RemoveAtIndex(contents, k);
  }

  /** Dropping the first node and the first record keeps them matched and sorted. */
  lemma HoldsTail(nodes: seq<Node>, contents: seq<Meteorite>, repr: set<object>)
    requires Holds(nodes, contents, repr) && nodes != []
    ensures Holds(nodes[1..], contents[1..], repr)
  {
    forall k | 0 <= k < |nodes| - 2 ensures contents[1..][k].CompareTo(contents[1..][k + 1]) < 0 {
      assert contents[1..][k] == contents[k + 1] && contents[1..][k + 1] == contents[k + 2];
    }
  }

  /** A chain of two or more nodes continues as a chain from its second node. */
  lemma ChainTail(nodes: seq<Node>)
    requires Chain(nodes) && nodes[0].next != null
    ensures |nodes| > 1 && Chain(nodes[1..]) && nodes[1..][0] == nodes[0].next
    ensures nodes[1..][|nodes| - 2] == nodes[|nodes| - 1]
  {
    forall k | 0 <= k < |nodes| - 2 ensures nodes[1..][k].next == nodes[1..][k + 1] {
      assert nodes[1..][k] == nodes[k + 1] && nodes[1..][k + 1] == nodes[k + 2];
    }
  }

  class MeteoriteLinkedList {
    var head: Node?
    var tail: Node?
    var current: Node?

    /** The nodes from head to tail, and the records they hold. */
    ghost var Nodes: seq<Node>
    ghost var Contents: seq<Meteorite>
    ghost var Repr: set<object>

    /** A linked chain whose records are in ascending order. */
    ghost predicate Valid()
      reads this`head, this`tail, this`Nodes, this`Contents, this`Repr, Repr - {this}
    {
      && this in Repr
      && Holds(Nodes, Contents, Repr)
      && (Nodes != [] ==> Chain(Nodes))
      && head == (if Nodes == [] then null else Nodes[0])
      && tail == (if Nodes == [] then null else Nodes[|Nodes| - 1])
      && Sorted(Contents)
    }

    /** An empty list. */
    constructor ()
      ensures Valid() && fresh(Repr)
      ensures Contents == []
    {
      head, tail, current := null, null, null;
      Nodes, Contents := [], [];
      Repr := {this};
    }

    /** `add`, at the head: the new node points to the old head and becomes the head. */
    method LinkFirst(node: Node)
      requires Valid() && node !in Repr && Nodes != []
      requires Sorted([node.data] + Contents)
      modifies Repr, node
      ensures Valid() && Repr == old(Repr) + {node}
      ensures Nodes == [node] + old(Nodes) && Contents == [node.data] + old(Contents)
    {
      NodesChain();
      Prepend(node, head, Nodes);
      head := node;
      Record(tail, [node] + Nodes, [node.data] + Contents, Repr + {node});
    }

    /** Links `node` in front of the chain `nodes`, whose first node is `first`. */
    static method Prepend(node: Node, first: Node, ghost nodes: seq<Node>)
      requires Chain(nodes) && first == nodes[0] && node !in nodes
      modifies node`next
      ensures Chain([node] + nodes)
    {
      node.next := first;
    }

    /** `add`, in the middle: the new node goes between `current` and its successor. */
    method LinkAfterCurrent(node: Node, ghost i: nat)
      requires Valid() && node !in Repr && i < |Nodes| - 1 && current == Nodes[i]
      requires Sorted(Contents[..i + 1] + [node.data] + Contents[i + 1..])
      modifies Repr, node
      ensures Valid() && Repr == old(Repr) + {node}
      ensures Nodes == old(Nodes[..i + 1]) + [node] + old(Nodes[i + 1..])
      ensures Contents == old(Contents[..i + 1]) + [node.data] + old(Contents[i + 1..])
    {
      ghost var nodes, contents := Nodes[..i + 1] + [node] + Nodes[i + 1..], Contents[..i + 1] + [node.data] + Contents[i + 1..];
      InsertAtIndex(Nodes, i + 1, node);
      InsertAtIndex(Contents, i + 1, node.data);
      assert Holds(nodes, contents, Repr + {node});
      NodesChain();
      Splice(current, node, Nodes, i);
      Record(tail, nodes, contents, Repr + {node});
    }

    /** Takes `nodes`, already linked from `head` to `last`, with their records, as the list's new state. */
    method Record(last: Node, ghost nodes: seq<Node>, ghost contents: seq<Meteorite>, ghost repr: set<object>)
      requires this in repr && Holds(nodes, contents, repr) && Chain(nodes)
      requires head == nodes[0] && last == nodes[|nodes| - 1]
      modifies this`tail, this`Nodes, this`Contents, this`Repr
      ensures Valid() && Nodes == nodes && Contents == contents && Repr == repr
    {
      tail, Nodes, Contents, Repr := last, nodes, contents, repr;
    }

    /** Links `node` into the chain `nodes` right after `prev`, the node at `i`. */
    static method Splice(prev: Node, node: Node, ghost nodes: seq<Node>, ghost i: nat)
      requires Chain(nodes) && i < |nodes| - 1 && prev == nodes[i] && node !in nodes
      modifies prev`next, node`next
      ensures Chain(nodes[..i + 1] + [node] + nodes[i + 1..])
    {
      ChainDistinct(nodes, i);
      InsertAtIndex(nodes, i + 1, node);
      node.next := prev.next;
      prev.next := node;
    }

    /** `add`, at the tail: the old tail points to the new node, which becomes the tail. */
    method LinkLast(node: Node)
      requires Valid() && node !in Repr && Nodes != [] && node.next == null
      requires Sorted(Contents + [node.data])
      modifies Repr, node
      ensures Valid() && Repr == old(Repr) + {node}
      ensures Nodes == old(Nodes) + [node] && Contents == old(Contents) + [node.data]
    {
      NodesChain();
      Append(tail, node, Nodes);
      Record(node, Nodes + [node], Contents + [node.data], Repr + {node});
    }

    /** Links `node` after `last`, the final node of the chain `nodes`. */
    static method Append(last: Node, node: Node, ghost nodes: seq<Node>)
      requires Chain(nodes) && last == nodes[|nodes| - 1] && node !in nodes && node.next == null
      modifies last`next
      ensures Chain(nodes + [node])
    {
      ChainDistinct(nodes, |nodes| - 1);
      last.next := node;
    }

    /** An empty list gets `node` as its head and its tail. */
    method LinkOnly(node: Node)
      requires Valid() && node !in Repr && Nodes == [] && node.next == null
      modifies this
      ensures Valid() && Repr == old(Repr) + {node}
      ensures Nodes == [node] && Contents == [node.data]
    {
      head, tail := node, node;
      Nodes, Contents, Repr := [node], [node.data], Repr + {node};
    }

    /** The record of `node` sorts before every record present, so it goes first. */
    method InsertFirst(node: Node)
      requires Valid() && node !in Repr && Nodes != []
      requires node.data.CompareTo(Contents[0]) < 0
      modifies Repr, node
      ensures Valid() && Repr == old(Repr) + {node}
      ensures !HasKey(old(Contents), node.data) && Contents == Insert(old(Contents), node.data)
    {
      InsertAt(Contents, 0, node.data);
      assert Contents[..0] + [node.data] + Contents[0..] == [node.data] + Contents;
      LinkFirst(node);
    }

    /** The record of `node` sorts after those up to `current` and before the next one. */
    method InsertAfterCurrent(node: Node, ghost i: nat)
      requires Valid() && node !in Repr && i < |Nodes| - 1 && current == Nodes[i]
      requires forall j :: 0 <= j <= i ==> node.data.CompareTo(Contents[j]) > 0
      requires node.data.CompareTo(Contents[i + 1]) < 0
      modifies Repr, node
      ensures Valid() && Repr == old(Repr) + {node}
      ensures !HasKey(old(Contents), node.data) && Contents == Insert(old(Contents), node.data)
    {
      assert forall j :: 0 <= j < i + 1 ==> Contents[j].CompareTo(node.data) < 0 by {
        forall j | 0 <= j <= i ensures Contents[j].CompareTo(node.data) < 0 {
          CompareToFlips(node.data, Contents[j]);
        }
      }
      InsertAt(Contents, i + 1, node.data);
      LinkAfterCurrent(node, i);
    }

    /** The record of `node` sorts after every record present, so it goes last. */
    method InsertLast(node: Node)
      requires Valid() && node !in Repr && Nodes != [] && node.next == null
      requires forall j :: 0 <= j < |Contents| ==> node.data.CompareTo(Contents[j]) > 0
      modifies Repr, node
      ensures Valid() && Repr == old(Repr) + {node}
      ensures !HasKey(old(Contents), node.data) && Contents == Insert(old(Contents), node.data)
    {
      assert forall j :: 0 <= j < |Contents| ==> Contents[j].CompareTo(node.data) < 0 by {
        forall j | 0 <= j < |Contents| ensures Contents[j].CompareTo(node.data) < 0 {
          CompareToFlips(node.data, Contents[j]);
        }
      }
      InsertAt(Contents, |Contents|, node.data);
      assert Contents[..|Contents|] + [node.data] + Contents[|Contents|..] == Contents + [node.data];
      LinkLast(node);
    }

    /**
     * The walk shared by `add` and `remove`: from the head, moves `current`
     * on while the record after it sorts before `key`, and stops at the last
     * node or before the first record that does not; `relation` is the last
     * comparison made. The head itself is not compared.
     */
    method Seek(key: Meteorite) returns (relation: int, ghost i: nat)
      requires Valid() && Nodes != [] && current == head
      modifies this`current
      ensures Valid()
      ensures i < |Nodes| && current == Nodes[i]
      ensures forall j :: 1 <= j <= i ==> key.CompareTo(Contents[j]) > 0
      ensures current.next == null ==> i == |Nodes| - 1
      ensures current.next != null ==> i < |Nodes| - 1 && relation == key.CompareTo(Contents[i + 1]) <= 0
    {
      i, relation := 0, 1;
      while current.next != null
        invariant i < |Nodes| && current == Nodes[i]
        invariant forall j :: 1 <= j <= i ==> key.CompareTo(Contents[j]) > 0
        decreases |Nodes| - i
      {
        relation := key.CompareTo(current.next.data);
        if relation <= 0 {
          return;
        }
        current := current.next;
        i := i + 1;
      }
    }

    /**
     * `add`: refuses `null`; returns false and changes nothing when a record
     * with the same identity is present; otherwise links the record in at
     * its sorted position (at the head, in the middle or at the tail).
     */
    method Add(meteor: Meteorite?) returns (r: Result<bool>)
      requires Valid()
      modifies Repr
      ensures Valid() && fresh(Repr - old(Repr))
      ensures meteor == null ==> r == Err(NullMeteorite) && Contents == old(Contents)
      ensures meteor != null ==> r == Ok(!HasKey(old(Contents), meteor))
      ensures meteor != null ==> Contents == Insert(old(Contents), meteor)
    {
      if meteor == null {
        return Err(NullMeteorite);
      }
      var newNode := new Node(meteor);
      if head == null {
        LinkOnly(newNode);
        return Ok(true);
      }
      var relation := newNode.CompareTo(head);
      if relation == 0 {
        InsertExisting(Contents, 0, meteor);
        return Ok(false);
      } else if relation < 0 {
        InsertFirst(newNode);
        return Ok(true);
      }
      current := head;
      var added := AddAfterHead(newNode);
      return Ok(added);
    }

    /**
     * `add` past the head: walks to the sorted position of the record of
     * `node` and links `node` in there, unless an equal record is met.
     */
    method AddAfterHead(node: Node) returns (added: bool)
      requires Valid() && Nodes != [] && current == head
      requires node !in Repr && node.next == null && node.data.CompareTo(Contents[0]) > 0
      modifies Repr, node
      ensures Valid() && Repr == if added then old(Repr) + {node} else old(Repr)
      ensures added == !HasKey(old(Contents), node.data)
      ensures Contents == Insert(old(Contents), node.data)
    {
      var relation;
      ghost var i;
      relation, i := Seek(node.data);
      if current.next == null {
        InsertLast(node);
        added := true;
      } else if relation == 0 {
        InsertExisting(Contents, i + 1, node.data);
        added := false;
      } else {
        InsertAfterCurrent(node, i);
        added := true;
      }
    }

    /** `remove`, at the head: the successor becomes the head, and `current` with it. */
    method UnlinkHead()
      requires Valid() && Nodes != []
      modifies this`head, this`tail, this`current, this`Nodes, this`Contents, this`Repr
      ensures Valid() && Repr == old(Repr) && Contents == old(Contents[1..])
      ensures current == head
    {
      NodesChain();
      HoldsTail(Nodes, Contents, Repr);
      if head.next == null {
        head, tail, current := null, null, null;
        Nodes, Contents := [], [];
      } else {
        ChainTail(Nodes);
        head := head.next;
        current := head;
        Record(tail, Nodes[1..], Contents[1..], Repr);
      }
    }

    /** `remove`, further on: `current` skips its successor, and becomes the tail if that was the tail. */
    method UnlinkAfterCurrent(ghost i: nat)
      requires Valid() && i < |Nodes| - 1 && current == Nodes[i]
      modifies this`tail, this`Nodes, this`Contents, this`Repr, Nodes[i]
      ensures Valid() && Repr == old(Repr)
      ensures Contents == old(Contents[..i + 1] + Contents[i + 2..])
    {
      ghost var nodes, contents := Nodes[..i + 1] + Nodes[i + 2..], Contents[..i + 1] + Contents[i + 2..];
      HoldsRemoveAt(Nodes, Contents, Repr, i + 1);
      RemoveAtIndex(Nodes, i + 1);
      assert head == nodes[0] && current == nodes[i];
      assert i + 2 < |Nodes| ==> tail == nodes[|nodes| - 1];
      NodesChain();
      Bypass(current, Nodes, i);
      Record(if current.next == null then current else tail, nodes, contents, Repr);
    }

    /** Unlinks the successor of `prev`, the node at `i`, from the chain `nodes`. */
    static method Bypass(prev: Node, ghost nodes: seq<Node>, ghost i: nat)
      requires Chain(nodes) && i < |nodes| - 1 && prev == nodes[i]
      modifies prev`next
      ensures Chain(nodes[..i + 1] + nodes[i + 2..])
      ensures prev.next == if i + 2 < |nodes| then nodes[i + 2] else null
    {
      ChainDistinct(nodes, i);
      RemoveAtIndex(nodes, i + 1);
      prev.next := prev.next.next;
    }

    /**
     * `remove(name, id)`: on an empty list, nothing; a head with exactly
     * this name and id is unlinked; otherwise the identity must be valid,
     * and the walk stops at the first later record not sorting before it,
     * which is unlinked when it compares equal.
     */
    method Remove(name: string, id: int) returns (r: Result<Option<Meteorite>>)
      requires Valid()
      modifies Repr
      ensures Valid() && Repr == old(Repr)
      ensures r == Removed(old(Contents), name, id)
      ensures Contents == Remaining(old(Contents), name, id)
    {
      if head == null {
        return Ok(None);
      }
      if head.data.name == name && head.data.id == id {
        var removed := head;
        UnlinkHead();
        return Ok(Some(removed.data));
      }
      current := head;
      var toremove := NewMeteorite(name, id);
      if toremove.Err? {
        return Err(toremove.error);
      }
      var removed := RemoveAfterHead(toremove.value);
      return Ok(removed);
    }

    /**
     * `remove` past the head: walks towards `key` and unlinks the first
     * later record that compares equal to it, if the walk stops on one.
     */
    method RemoveAfterHead(key: Meteorite) returns (removed: Option<Meteorite>)
      requires Valid() && Nodes != [] && current == head
      requires !SameIdentity(Contents[0], key.name, key.id) && ValidIdentity(key.name, key.id)
      modifies Repr
      ensures Valid() && Repr == old(Repr)
      ensures Ok(removed) == Removed(old(Contents), key.name, key.id)
      ensures Contents == Remaining(old(Contents), key.name, key.id)
    {
      var relation;
      ghost var i;
      relation, i := Seek(key);
      if current.next != null && relation == 0 {
        RemoveFound(Contents, i, key);
        removed := Some(current.next.data);
        UnlinkAfterCurrent(i);
      } else {
        RemoveMissing(Contents, i, key);
        removed := None;
      }
    }

    /** A non-empty list's nodes form a chain rendering as the lines of its records. */
    lemma LinesOfNodes()
      requires Valid() && Nodes != []
      ensures Chain(Nodes) && RendersAs(Nodes, Lines(Contents))
    {
    }

    /** A non-empty list's nodes form a chain. */
    lemma NodesChain()
      requires Valid() && Nodes != []
      ensures Chain(Nodes)
    {
    }

    /** The head's line starts `toString`'s text. */
    static method FirstLine(node: Node, ghost nodes: seq<Node>, ghost lines: seq<string>) returns (r: string)
      requires nodes != [] && node == nodes[0] && RendersAs(nodes, lines)
      ensures r == Join(lines[..1])
    {
      r := "" + node.ToString();
    }

    /** One step of `toString`'s loop: a line break, then the node's line. */
    static method AppendLine(text: string, node: Node, ghost nodes: seq<Node>, ghost lines: seq<string>, ghost i: nat) returns (r: string)
      requires 0 < i < |nodes| && node == nodes[i] && RendersAs(nodes, lines) && text == Join(lines[..i])
      ensures r == Join(lines[..i + 1])
    {
      JoinStep(lines, i);
      r := text + "\n" + node.ToString();
    }

    /** The walk of `toString`'s loop along a chain of nodes, from its first to its last. */
    static method RenderChain(first: Node, ghost nodes: seq<Node>, ghost lines: seq<string>) returns (text: string, last: Node)
      requires Chain(nodes) && first == nodes[0] && RendersAs(nodes, lines)
      ensures text == Join(lines) && last == nodes[|nodes| - 1]
    {
      text := FirstLine(first, nodes, lines);
      last := first;
      ghost var i := 0;
      while last.next != null
        invariant i < |nodes| && last == nodes[i]
        invariant text == Join(lines[..i + 1])
        decreases |nodes| - i
      {
        last := last.next;
        i := i + 1;
        text := AppendLine(text, last, nodes, lines, i);
      }
      assert lines[..i + 1] == lines;
    }

    /**
     * `toString`: the records' lines from head to tail, separated by line
     * breaks; `current` is left on the tail.
     */
    method ToString() returns (text: string)
      requires Valid()
      modifies this`current
      ensures text == Join(old(Lines(Contents)))
      ensures current == if Nodes == [] then old(current) else tail
    {
      if head == null {
        return "";
      }
      LinesOfNodes();
      var last;
      text, last := RenderChain(head, Nodes, Lines(Contents));
      current := last;
    }
  }
}
