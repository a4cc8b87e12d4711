/**
 * Locations relative to a membrane, species at a location, and species with
 * a stoichiometry (model/Location.java, model/LocatedSpecies.java,
 * model/StoichiometrySpecies.java).
 */
module Species {
  import opened Wrappers
  import Text

  /** The four locations, in declaration order. */
  datatype Location = On | Under | Contained | Around

  /** Position in the declaration order, which is what `Enum.compareTo` compares. */
  function Ordinal(l: Location): (n: nat)
    ensures n < 4
    ensures l == On <==> n == 0
    ensures l == Under <==> n == 1
    ensures l == Contained <==> n == 2
    ensures l == Around <==> n == 3
  {
    match l
    case On => 0
    case Under => 1
    case Contained => 2
    case Around => 3
  }

  /** The enum constant's name, as printed in species lines. */
  function LocationName(l: Location): string {
    match l
    case On => "on"
    case Under => "under"
    case Contained => "contained"
    case Around => "around"
  }

  /** `Location.valueOf`: exact name, anything else is an error (None). */
  function ParseLocation(s: string): (r: Option<Location>)
    ensures r.Some? ==> LocationName(r.value) == s
  {
    if s == "on" then Some(On)
    else if s == "under" then Some(Under)
    else if s == "contained" then Some(Contained)
    else if s == "around" then Some(Around)
    else None
  }

  lemma ParseLocationName(l: Location)
    ensures ParseLocation(LocationName(l)) == Some(l)
  {
    match l
    case On =>
    case Under => assert "under" != "on";
    case Contained => assert "contained" != "on" && "contained" != "under";
    case Around => assert "around" != "on" && "around" != "under" && "around" != "contained";
  }

  /** A species in a location relative to a membrane type, e.g. "socs1 contained redpulp_macrophage". */
  datatype LocatedSpecies = LocatedSpecies(speciesName: string, location: Location, membraneName: string)

  /**
   * A located species with a number of copies. Java's `equals` and
   * `hashCode` are inherited, so two of these are the same set element
   * exactly when their `species` parts are equal.
   */
  datatype StoichiometrySpecies = StoichiometrySpecies(stoichiometry: int, species: LocatedSpecies)

  /** The inherited `LocatedSpecies.equals`. */
  predicate SameSpecies(a: StoichiometrySpecies, b: StoichiometrySpecies) {
    a.species == b.species
  }

  /** `LocatedSpecies.compareTo`: membrane name, then location order, then species name. */
  function Compare(a: LocatedSpecies, b: LocatedSpecies): int {
    var c := Text.Compare(a.membraneName, b.membraneName);
    if c != 0 then c
    else
      var d := Ordinal(a.location) - Ordinal(b.location);
      if d != 0 then d
      else Text.Compare(a.speciesName, b.speciesName)
  }

  /** `compareTo` agrees with `equals`: it is 0 exactly for equal species. */
  lemma CompareZeroIffEqual(a: LocatedSpecies, b: LocatedSpecies)
    ensures Compare(a, b) == 0 <==> a == b
  {
    Text.CompareZeroIffEqual(a.membraneName, b.membraneName);
    Text.CompareZeroIffEqual(a.speciesName, b.speciesName);
  }

  lemma CompareAntisymmetric(a: LocatedSpecies, b: LocatedSpecies)
    ensures Compare(b, a) == -Compare(a, b)
  {
    Text.CompareAntisymmetric(a.membraneName, b.membraneName);
    Text.CompareAntisymmetric(a.speciesName, b.speciesName);
  }

  lemma CompareTransitive(a: LocatedSpecies, b: LocatedSpecies, c: LocatedSpecies)
    requires Compare(a, b) < 0 && Compare(b, c) < 0
    ensures Compare(a, c) < 0
  {
    var ab := Text.Compare(a.membraneName, b.membraneName);
    var bc := Text.Compare(b.membraneName, c.membraneName);
    Text.CompareZeroIffEqual(a.membraneName, b.membraneName);
    Text.CompareZeroIffEqual(b.membraneName, c.membraneName);
    Text.CompareZeroIffEqual(a.membraneName, c.membraneName);
    if ab < 0 && bc < 0 {
      Text.CompareTransitive(a.membraneName, b.membraneName, c.membraneName);
    } else if ab == 0 && bc == 0 {
      if Ordinal(a.location) == Ordinal(b.location) == Ordinal(c.location) {
        Text.CompareTransitive(a.speciesName, b.speciesName, c.speciesName);
      }
    }
  }

  /** `LocatedSpecies.toString`: "<species> <location> <membrane>". */
  function SpeciesText(ls: LocatedSpecies): string {
    ls.speciesName + " " + LocationName(ls.location) + " " + ls.membraneName
  }

  /** `StoichiometrySpecies.toString`: "<stoichiometry> <species> <location> <membrane>". */
  function StoichiometryText(ss: StoichiometrySpecies): string {
    Text.IntToString(ss.stoichiometry) + " " + SpeciesText(ss.species)
  }

  predicate SpaceFree(ls: LocatedSpecies) {
    ' ' !in ls.speciesName && ' ' !in ls.membraneName
  }

  /**
   * The printed form of a located species determines it when its names hold
   * no spaces (as the grammar's identifiers do): species lines re-parse.
   */
  lemma {:induction false} SpeciesTextInjective(a: LocatedSpecies, b: LocatedSpecies)
    requires SpaceFree(a) && SpaceFree(b)
    requires SpeciesText(a) == SpeciesText(b)
    ensures a == b
  {
    var la, lb := LocationName(a.location), LocationName(b.location);
    assert SpeciesText(a) == a.speciesName + " " + (la + " " + a.membraneName);
    assert SpeciesText(b) == b.speciesName + " " + (lb + " " + b.membraneName);
    Text.SpaceSeparatedInjective(a.speciesName, la + " " + a.membraneName, b.speciesName, lb + " " + b.membraneName);
    assert ' ' !in la && ' ' !in lb by {
      match a.location { case On => case Under => case Contained => case Around => }
      match b.location { case On => case Under => case Contained => case Around => }
    }
    Text.SpaceSeparatedInjective(la, a.membraneName, lb, b.membraneName);
    ParseLocationName(a.location);
    ParseLocationName(b.location);
  }
}
