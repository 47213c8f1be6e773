/** Odds: the six weights of one die's faces, held in a fixed array of six unsigned
    (32-bit) chances.  Nothing checks the weights: the validation call in set_odds is
    commented out in the source. */
module OddsTable {
  import opened Wrappers
  import opened Texts

  /** unsigned: a 32-bit chance. */
  type Chance = x: int | 0 <= x < 0x1_0000_0000

  /** The number of faces, and of chances an Odds holds. */
  const Faces: nat := 6

  /** The weights of a default-constructed Odds: one for every face. */
  const StandardOdds: seq<Chance> := [1, 1, 1, 1, 1, 1]

  /** The chances as the natural numbers the output operator writes. */
  function AsNats(cs: seq<Chance>): (ns: seq<nat>)
    ensures |ns| == |cs| && forall i :: 0 <= i < |cs| ==> ns[i] == cs[i]
  {
    seq(|cs|, i requires 0 <= i < |cs| => cs[i] as nat)
  }

  /** The reading of a list of naturals back as chances, where every one fits. */
  function AsChances(ns: seq<nat>): (cs: seq<Chance>)
    requires forall i :: 0 <= i < |ns| ==> ns[i] < 0x1_0000_0000
    ensures AsNats(cs) == ns
  {
    seq(|ns|, i requires 0 <= i < |ns| => ns[i] as Chance)
  }

  /** operator<< on Odds as the text it writes: `{c0, c1, c2, c3, c4, c5}`. */
  function OddsText(cs: seq<Chance>): (s: seq<char>)
    requires |cs| == Faces
    ensures ReadBraced(s, Faces) == Ok((AsNats(cs), []))
  {
    BracedRoundTrip(AsNats(cs), []);
    assert Braced(AsNats(cs)) + [] == Braced(AsNats(cs));
    Braced(AsNats(cs))
  }

  class Odds {
    const chances: array<Chance>

    ghost predicate Valid()
      reads this
    {
      chances.Length == Faces
    }

    function Values(): (cs: seq<Chance>)
      reads this, chances
      requires Valid()
      ensures |cs| == Faces
    {
      chances[..]
    }

    /** Odds(): a local array filled with ones, then set_odds. */
    constructor ()
      ensures Valid() && fresh(chances) && Values() == StandardOdds
    {
      chances := new Chance[Faces];
      new;
      var standard := new Chance[Faces];
      var i := 0;
      while i < Faces
        invariant 0 <= i <= Faces
        invariant forall k :: 0 <= k < i ==> standard[k] == 1
      {
        standard[i] := 1;
        i := i + 1;
      }
      SetOdds(standard);
      assert Values() == StandardOdds;
    }

    /** Odds(const Chance*): set_odds from the first six entries of `src`. */
    constructor FromArray(src: array<Chance>)
      requires src.Length >= Faces
      ensures Valid() && fresh(chances) && Values() == src[..Faces]
    {
      chances := new Chance[Faces];
      new;
      SetOdds(src);
    }

    /** The copy constructor: the copy assignment. */
    constructor Copy(other: Odds)
      requires other.Valid()
      ensures Valid() && fresh(chances) && Values() == other.Values()
    {
      chances := new Chance[Faces];
      new;
      Assign(other);
    }

    /** The move constructor: the other's array decays to a pointer, a temporary Odds
        is built from it and assigned, so the chances are copied and the other Odds
        keeps them. */
    constructor Move(other: Odds)
      requires other.Valid()
      ensures Valid() && fresh(chances) && Values() == other.Values()
    {
      chances := new Chance[Faces];
      new;
      var temporary := new Odds.FromArray(other.chances);
      MoveAssign(temporary);
    }

    /** set_odds: std::copy of six chances into the array. */
    method SetOdds(src: array<Chance>)
      requires Valid() && src.Length >= Faces
      modifies chances
      ensures Values() == old(src[..Faces])
    {
      var i := 0;
      while i < Faces
        invariant 0 <= i <= Faces
        invariant forall k :: 0 <= k < i ==> chances[k] == old(src[k])
        invariant forall k :: i <= k < src.Length ==> src[k] == old(src[k])
      {
        chances[i] := src[i];
        i := i + 1;
      }
    }

    /** get_odds(index): out_of_range from index 6 on. */
    function GetOdds(index: nat): (r: Result<Chance>)
      reads this, chances
      requires Valid()
      ensures r.Ok? <==> index < Faces
      ensures r.Ok? ==> r.value == Values()[index]
      ensures r.Err? ==> r.error == OutOfRange
    {
      if index >= Faces then Err(OutOfRange) else Ok(chances[index])
    }

    /** operator[] used as an lvalue: the same range check, then a write. */
    method SetAt(index: nat, chance: Chance) returns (r: Outcome)
      requires Valid()
      modifies chances
      ensures r == if index < Faces then Pass else Fail(OutOfRange)
      ensures r.Pass? ==> Values() == old(Values())[index := chance]
      ensures r.Fail? ==> Values() == old(Values())
    {
      if index >= Faces {
        return Fail(OutOfRange);
      }
      chances[index] := chance;
      r := Pass;
    }

    /** Copy assignment: with a self check, copies the six chances. */
    method Assign(other: Odds)
      requires Valid() && other.Valid()
      requires other != this ==> other.chances != chances
      modifies chances
      ensures Values() == old(other.Values())
      ensures other != this ==> other.Values() == old(other.Values())
    {
      if this != other {
        SetOdds(other.chances);
      }
    }

    /** Move assignment: the copy assignment. */
    method MoveAssign(other: Odds)
      requires Valid() && other.Valid()
      requires other != this ==> other.chances != chances
      modifies chances
      ensures Values() == old(other.Values())
      ensures other != this ==> other.Values() == old(other.Values())
    {
      Assign(other);
    }

    /** operator<< as the text it writes. */
    function Text(): (s: seq<char>)
      reads this, chances
      requires Valid()
      ensures ReadBraced(s, Faces) == Ok((AsNats(Values()), []))
    {
      OddsText(chances[..])
    }
  }
}
