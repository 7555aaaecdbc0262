/**
 * Meteorite records (`Meteorite`).
 *
 * A record has a fixed identity, a non-empty name and a positive id, and
 * three optional attributes that start out unset: mass (unset = -1), year
 * (unset = 0) and location (unset = `None`, Java's `null`). The setters
 * validate their argument and leave the attribute unchanged when they refuse
 * it. Records are ordered by name ignoring case, then by the decimal text of
 * the id; two records are equal when their identities are, whatever their
 * attributes.
 */
module Meteorites {
  import opened Results
  import opened JavaText
  import opened Locations

  type PosInt = n: int | n > 0 witness 1

  const UnsetMass := -1
  const UnsetYear := 0
  /** Years must lie strictly between 0 and this one. */
  const CurrentYear := 2020

  /** The identity check of the constructor, by value: a non-empty name and a positive id. */
  predicate ValidIdentity(name: string, id: int)
  {
    name != "" && id > 0
  }

  /**
   * A Java string as the constructor sees it: its characters, and whether it
   * is the one interned empty-string literal `""`.
   */
  datatype JavaString = JavaString(chars: string, isEmptyLiteral: bool)

  /**
   * The identity check as written: `name != ""` compares references, so it
   * rejects only the interned literal; a distinct empty string object (such
   * as `new String("")`) passes.
   */
  predicate AcceptsIdentityAsWritten(name: JavaString, id: int)
  {
    !(name.isEmptyLiteral && name.chars == "") && id > 0
  }

  /** A run-time empty name passes the check as written, though the identity is invalid. */
  lemma BuiltEmptyNameAccepted()
    ensures AcceptsIdentityAsWritten(JavaString("", false), 1)
    ensures !ValidIdentity(JavaString("", false).chars, 1)
  {
  }

  /** `name.compareToIgnoreCase(...)`, then the ids' decimal strings compared the same way. */
  function CompareKeys(name1: string, id1: PosInt, name2: string, id2: PosInt): int
  {
    var relation := CompareIgnoreCase(name1, name2);
    if relation == 0 then CompareIgnoreCase(IntToString(id1), IntToString(id2)) else relation
  }

  /** The comparison is zero exactly for equal names (ignoring case) and equal ids. */
  lemma CompareKeysZero(name1: string, id1: PosInt, name2: string, id2: PosInt)
    ensures CompareKeys(name1, id1, name2, id2) == 0 <==> EqualsIgnoreCase(name1, name2) && id1 == id2
  {
    CompareIgnoreCaseZero(name1, name2);
    CompareIgnoreCaseZero(IntToString(id1), IntToString(id2));
    DigitsEqualIgnoringCase(id1, id2);
  }

  lemma CompareKeysAntisymmetric(name1: string, id1: PosInt, name2: string, id2: PosInt)
    ensures CompareKeys(name2, id2, name1, id1) == -CompareKeys(name1, id1, name2, id2)
  {
    CompareIgnoreCaseAntisymmetric(name1, name2);
    CompareIgnoreCaseAntisymmetric(IntToString(id1), IntToString(id2));
  }

  lemma CompareKeysTransitive(name1: string, id1: PosInt, name2: string, id2: PosInt, name3: string, id3: PosInt)
    requires CompareKeys(name1, id1, name2, id2) < 0 && CompareKeys(name2, id2, name3, id3) < 0
    ensures CompareKeys(name1, id1, name3, id3) < 0
  {
    var r12, r23 := CompareIgnoreCase(name1, name2), CompareIgnoreCase(name2, name3);
    CompareIgnoreCaseZero(name1, name2);
    CompareIgnoreCaseZero(name2, name3);
    if r12 == 0 && r23 == 0 {
      CompareIgnoreCaseCongruent(name1, name2, name3);
      CompareIgnoreCaseTransitive(IntToString(id1), IntToString(id2), IntToString(id3));
    } else if r12 == 0 {
      CompareIgnoreCaseCongruent(name1, name2, name3);
    } else if r23 == 0 {
      CompareIgnoreCaseAntisymmetric(name2, name3);
      CompareIgnoreCaseZero(name3, name2);
      CompareIgnoreCaseCongruent(name3, name2, name1);
      CompareIgnoreCaseAntisymmetric(name1, name3);
      CompareIgnoreCaseAntisymmetric(name1, name2);
    } else {
      CompareIgnoreCaseTransitive(name1, name2, name3);
    }
  }

  /** Keys comparing equal compare identically against any third key. */
  lemma CompareKeysCongruent(name1: string, id1: PosInt, name2: string, id2: PosInt, name3: string, id3: PosInt)
    requires CompareKeys(name1, id1, name2, id2) == 0
    ensures CompareKeys(name1, id1, name3, id3) == CompareKeys(name2, id2, name3, id3)
  {
    CompareKeysZero(name1, id1, name2, id2);
    CompareIgnoreCaseCongruent(name1, name2, name3);
  }

  /** Ids break ties as text: id 10 sorts before id 9. */
  lemma IdsCompareAsText()
    ensures CompareKeys("Aachen", 10, "Aachen", 9) < 0
  {
    assert IntToString(10) == "10" by { assert Digits(10) == Digits(1) + ['0']; }
    assert IntToString(9) == "9";
    assert CompareIgnoreCase("Aachen", "Aachen") == 0 by { CompareIgnoreCaseZero("Aachen", "Aachen"); }
  }

  class Meteorite {
    const name: string
    const id: PosInt
    var mass: int
    var year: int
    var loc: Option<Location>

    /**
     * The attribute invariant the setters maintain: each attribute is unset
     * or valid; a location can only have come from its validating constructor.
     */
    predicate Valid()
      reads this
    {
      (mass == UnsetMass || mass > 0) && (year == UnsetYear || 0 < year < CurrentYear) &&
      (loc.Some? ==> Locations.Valid(loc.value))
    }

    /** Stores a validated identity; `NewMeteorite` performs the validation. */
    constructor (name: string, id: PosInt)
      requires ValidIdentity(name, id)
      ensures this.name == name && this.id == id
      ensures mass == UnsetMass && year == UnsetYear && loc == None
      ensures Valid()
    {
      this.name := name;
      this.id := id;
      mass := UnsetMass;
      year := UnsetYear;
      loc := None;
    }

    /** `setMass`: stores a positive mass; otherwise refuses and keeps the old one. */
    method SetMass(mass: int) returns (r: Outcome)
      modifies this`mass
      ensures r == if mass > 0 then Pass else Fail(InvalidMass)
      ensures this.mass == if mass > 0 then mass else old(this.mass)
      ensures old(Valid()) ==> Valid()
    {
      if mass > 0 {
        this.mass := mass;
        r := Pass;
      } else {
        r := Fail(InvalidMass);
      }
    }

    /** `setYear`: stores a year in 1..2019; otherwise refuses and keeps the old one. */
    method SetYear(year: int) returns (r: Outcome)
      modifies this`year
      ensures r == if 0 < year < CurrentYear then Pass else Fail(InvalidYear)
      ensures this.year == if 0 < year < CurrentYear then year else old(this.year)
      ensures old(Valid()) ==> Valid()
    {
      if year < CurrentYear && year > 0 {
        this.year := year;
        r := Pass;
      } else {
        r := Fail(InvalidYear);
      }
    }

    /**
     * `setLocation`: stores the location, `None` included, without checking
     * it again; a `Location` object exists only once its constructor has
     * validated it.
     */
    method SetLocation(loc: Option<Location>)
      requires loc.Some? ==> Locations.Valid(loc.value)
      modifies this`loc
      ensures this.loc == loc
      ensures old(Valid()) ==> Valid()
    {
      this.loc := loc;
    }

    /** `compareTo`: negative, zero or positive as this record sorts before, with or after `o`. */
    function CompareTo(o: Meteorite): int
    {
      CompareKeys(name, id, o.name, o.id)
    }

    /** `equals`: the same object, or the same name ignoring case and the same id. */
    predicate Equals(obj: Meteorite?)
    {
      this == obj || (obj != null && EqualsIgnoreCase(name, obj.name) && id == obj.id)
    }

    /**
     * The six columns of `toString`: name left-aligned in 20, id in 4, year
     * in 4, mass in 6, latitude and longitude in 10 with five decimals; an
     * unset attribute becomes blanks of its column's width.
     */
    function Columns(): (c: seq<string>)
      reads this
      ensures |c| == 6
      ensures |c[0]| >= 20 && |c[1]| >= 4 && |c[2]| >= 4 && |c[3]| >= 6 && |c[4]| >= 10 && |c[5]| >= 10
    {
      [ PadRight(name, 20),
        PadLeft(IntToString(id), 4),
        if year != UnsetYear then PadLeft(IntToString(year), 4) else PadLeft("", 4),
        if mass != UnsetMass then PadLeft(IntToString(mass), 6) else PadLeft("", 6),
        if loc.Some? then PadLeft(Fixed5(loc.value.latitude), 10) else PadLeft("", 10),
        if loc.Some? then PadLeft(Fixed5(loc.value.longitude), 10) else PadLeft("", 10) ]
    }

    /** `toString`: the columns separated by single spaces. */
    function ToString(): string
      reads this
    {
      var c := Columns();
      c[0] + " " + c[1] + " " + c[2] + " " + c[3] + " " + c[4] + " " + c[5]
    }
  }

  /**
   * The constructor: refuses an empty name or a non-positive id; a new
   * record has every attribute unset.
   */
  method NewMeteorite(name: string, id: int) returns (r: Result<Meteorite>)
    ensures r.Err? <==> !ValidIdentity(name, id)
    ensures r.Err? ==> r.error == InvalidIdentity
    ensures r.Ok? ==> fresh(r.value) && r.value.name == name && r.value.id == id
    ensures r.Ok? ==> r.value.mass == UnsetMass && r.value.year == UnsetYear && r.value.loc == None
    ensures r.Ok? ==> r.value.Valid()
  {
    if name != "" && id > 0 {
      var m := new Meteorite(name, id);
      r := Ok(m);
    } else {
      r := Err(InvalidIdentity);
    }
  }

  /** `compareTo` returns zero exactly when `equals` holds. */
  lemma CompareToAgreesWithEquals(a: Meteorite, b: Meteorite)
    ensures a.CompareTo(b) == 0 <==> a.Equals(b)
  {
    CompareKeysZero(a.name, a.id, b.name, b.id);
    if a == b {
      assert EqualsIgnoreCase(a.name, b.name);
    }
  }

  /** A right-aligned rendering of a value is never blank, since it ends in a digit. */
  lemma PaddedDigitsNotBlank(s: string, width: nat)
    requires s != [] && IsDigit(s[|s| - 1])
    ensures !IsBlank(PadLeft(s, width))
  {
    var r := PadLeft(s, width);
    PadLeftKeepsText(s, width);
    assert r[|r| - 1] == r[|r| - |s|..][|s| - 1] == s[|s| - 1];
  }

  /** An unset attribute renders as nothing but blanks. */
  lemma BlankPadding(width: nat)
    ensures IsBlank(PadLeft("", width))
  {
    PadLeftKeepsText("", width);
    var r := PadLeft("", width);
    assert r[..|r| - 0] == r;
  }

  /** `toString` never leaves the id column blank. */
  lemma IdColumnShown(m: Meteorite)
    ensures !IsBlank(m.Columns()[1])
  {
    PaddedDigitsNotBlank(IntToString(m.id), 4);
  }

  /** The year column is blank exactly when the year is unset (0). */
  lemma YearColumnBlank(m: Meteorite)
    ensures IsBlank(m.Columns()[2]) <==> m.year == UnsetYear
  {
    if m.year != UnsetYear {
      PaddedDigitsNotBlank(IntToString(m.year), 4);
    } else {
      BlankPadding(4);
    }
  }

  /** The mass column is blank exactly when the mass is unset (-1). */
  lemma MassColumnBlank(m: Meteorite)
    ensures IsBlank(m.Columns()[3]) <==> m.mass == UnsetMass
  {
    if m.mass != UnsetMass {
      PaddedDigitsNotBlank(IntToString(m.mass), 6);
    } else {
      BlankPadding(6);
    }
  }

  /** Only blanks and decimal digits: no sign. */
  predicate BlankOrDigits(s: string)
  {
    forall i :: 0 <= i < |s| ==> s[i] == ' ' || IsDigit(s[i])
  }

  /** A right-aligned rendering of a non-negative value holds only blanks and digits. */
  lemma PaddedNatBlankOrDigits(n: nat, width: nat)
    ensures BlankOrDigits(PadLeft(IntToString(n), width))
  {
    var t := IntToString(n);
    var r := PadLeft(t, width);
    PadLeftKeepsText(t, width);
    DigitsAreDigits(n);
    forall i | 0 <= i < |r|
      ensures r[i] == ' ' || IsDigit(r[i])
    {
      if i < |r| - |t| {
        assert r[i] == r[..|r| - |t|][i];
      } else {
        assert r[i] == r[|r| - |t|..][i - (|r| - |t|)];
      }
    }
  }

  /**
   * For a record keeping the attribute invariant, the year and mass columns
   * are blank or show an unsigned number: no minus sign ever appears, since
   * a set year or mass is positive.
   */
  lemma ValidColumnsUnsigned(m: Meteorite)
    requires m.Valid()
    ensures BlankOrDigits(m.Columns()[2]) && BlankOrDigits(m.Columns()[3])
    ensures m.year != UnsetYear ==> !IsBlank(m.Columns()[2])
    ensures m.mass != UnsetMass ==> !IsBlank(m.Columns()[3])
  {
    if m.year != UnsetYear {
      PaddedNatBlankOrDigits(m.year, 4);
      PaddedDigitsNotBlank(IntToString(m.year), 4);
    } else {
      BlankPadding(4);
    }
    if m.mass != UnsetMass {
      PaddedNatBlankOrDigits(m.mass, 6);
      PaddedDigitsNotBlank(IntToString(m.mass), 6);
    } else {
      BlankPadding(6);
    }
  }

  /** Both coordinate columns are blank exactly when the location is unset (`null`). */
  lemma LocationColumnsBlank(m: Meteorite)
    ensures IsBlank(m.Columns()[4]) <==> m.loc.None?
    ensures IsBlank(m.Columns()[5]) <==> m.loc.None?
  {
    if m.loc.Some? {
      var f := Fixed5(m.loc.value.latitude);
      var g := Fixed5(m.loc.value.longitude);
      PaddedDigitsNotBlank(f, 10);
      PaddedDigitsNotBlank(g, 10);
    } else {
      BlankPadding(10);
    }
  }
}
