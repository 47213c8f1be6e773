/** OneDice: one die, holding the face it shows and the Odds of its six faces, together
    with the free functions it is built on: face validation, the face pictures, and the
    weighted draw (prefix sums of the chances searched by bisection).  The value the
    C library's rand() returns is a parameter. */
module OneDices {
  import opened Wrappers
  import opened Texts
  import opened OddsTable
  import opened AsciiArts

  /** unsigned short: the points a face shows. */
  type NumPoints = x: int | 0 <= x < 0x1_0000

  /** 2^32: unsigned arithmetic on chances wraps modulo this. */
  const ChanceModulus: nat := 0x1_0000_0000

  /** 2^16: a value stored in an unsigned short is reduced modulo this. */
  const NumPointsModulus: nat := 0x1_0000

  /** check_NumPoints: a die shows one to six points. */
  predicate CheckNumPoints(num: NumPoints): (r: bool)
    ensures r <==> num in {1, 2, 3, 4, 5, 6}
  {
    1 <= num <= 6
  }

  /** The six chances of an Odds, as a value. */
  type SixChances = cs: seq<Chance> | |cs| == 6 witness [1, 1, 1, 1, 1, 1]

  /** A OneDice as a value: the face it shows and its six chances. */
  datatype Die = Die(value: NumPoints, odds: SixChances)

  /** The rows every face shares: the top and the left side of the cube, and its base. */
  const CubeTop: seq<seq<char>> := ["   ________ ", "  /       /|", " /       / |", "/_______/  |"]
  const CubeBase: seq<char> := "L_______/   "

  /** The three rows of the front of the cube, by the pips they show. */
  const UpperNone: seq<char> := "|       |  /"
  const UpperLeft: seq<char> := "|  o    |  /"
  const UpperPair: seq<char> := "|  o o  |  /"
  const MiddleOne: seq<char> := "|   o   | / "
  const MiddleNone: seq<char> := "|       | / "
  const MiddlePair: seq<char> := "|  o o  | / "
  const LowerNone: seq<char> := "|       |/  "
  const LowerRight: seq<char> := "|    o  |/  "
  const LowerPair: seq<char> := "|  o o  |/  "

  /** The picture of a valid face. */
  function FaceArt(num: NumPoints): (face: FacePicture)
    requires CheckNumPoints(num)
    ensures face[..4] == CubeTop && face[7] == CubeBase
  {
    FaceArts[num - 1]
  }

  const FaceHeight: nat := 8
  const FaceWidth: nat := 12

  /** A face picture: eight rows of twelve characters. */
  predicate WellFormedFace(face: seq<seq<char>>)
  {
    |face| == FaceHeight && forall i :: 0 <= i < |face| ==> |face[i]| == FaceWidth
  }

  /** The pictures a face can have. */
  type FacePicture = face: seq<seq<char>> | WellFormedFace(face)
    witness CubeTop + [UpperNone, MiddleOne, LowerNone, CubeBase]

  /** The picture of a face with `upper`, `middle` and `lower` on the front. */
  function Cube(upper: seq<char>, middle: seq<char>, lower: seq<char>): (face: FacePicture)
    requires |upper| == |middle| == |lower| == FaceWidth
    ensures face[..4] == CubeTop && face[4..] == [upper, middle, lower, CubeBase]
  {
    CubeTop + [upper, middle, lower, CubeBase]
  }

  /** The pictures of the faces one to six, row for row those of oneDice.cpp. */
  const FaceArts: seq<FacePicture> := [
    Cube(UpperNone, MiddleOne, LowerNone),
    Cube(UpperLeft, MiddleNone, LowerRight),
    Cube(UpperLeft, MiddleOne, LowerRight),
    Cube(UpperPair, MiddleNone, LowerPair),
    Cube(UpperPair, MiddleOne, LowerPair),
    Cube(UpperPair, MiddlePair, LowerPair)
  ]

  /** A row that holds neither a terminator nor a newline, so that add_line accepts it
      and a written picture splits back into its rows. */
  predicate PlainRow(row: seq<char>)
  {
    '\0' !in row && '\n' !in row
  }

  predicate PlainRows(rows: seq<seq<char>>)
  {
    forall i :: 0 <= i < |rows| ==> PlainRow(rows[i])
  }

  /** A cube whose front rows are plain is plain. */
  lemma CubePlain(upper: seq<char>, middle: seq<char>, lower: seq<char>)
    requires |upper| == |middle| == |lower| == FaceWidth
    requires PlainRow(upper) && PlainRow(middle) && PlainRow(lower)
    ensures PlainRows(Cube(upper, middle, lower))
  {
    assert PlainRow(CubeTop[0]) && PlainRow(CubeTop[1]) && PlainRow(CubeTop[2]) && PlainRow(CubeTop[3]);
    assert PlainRow(CubeBase);
    var face := Cube(upper, middle, lower);
    assert face == [CubeTop[0], CubeTop[1], CubeTop[2], CubeTop[3], upper, middle, lower, CubeBase];
  }

  lemma FaceArtsPlain()
    ensures |FaceArts| == Faces
    ensures forall f :: 0 <= f < |FaceArts| ==> PlainRows(FaceArts[f])
  {
    assert PlainRow(UpperNone) && PlainRow(UpperLeft) && PlainRow(UpperPair);
    assert PlainRow(MiddleOne) && PlainRow(MiddleNone) && PlainRow(MiddlePair);
    assert PlainRow(LowerNone) && PlainRow(LowerRight) && PlainRow(LowerPair);
    CubePlain(UpperNone, MiddleOne, LowerNone);
    CubePlain(UpperLeft, MiddleNone, LowerRight);
    CubePlain(UpperLeft, MiddleOne, LowerRight);
    CubePlain(UpperPair, MiddleNone, LowerPair);
    CubePlain(UpperPair, MiddleOne, LowerPair);
    CubePlain(UpperPair, MiddlePair, LowerPair);
  }

  /** NumPoints_to_AsciiArt: invalid_argument for a value outside one to six; otherwise
      an empty art gets the face's rows one add_line at a time, and since all of them are
      equally wide none of those calls is rejected. */
  method NumPointsToAsciiArt(num: NumPoints) returns (r: Result<AsciiArt>)
    ensures r.Err? <==> !CheckNumPoints(num)
    ensures r.Err? ==> r.error == InvalidArgument
    ensures r.Ok? ==> r.value.Valid() && fresh(r.value.art.Repr)
    ensures r.Ok? ==> r.value.Rows() == FaceArt(num)
  {
    if !CheckNumPoints(num) {
      return Err(InvalidArgument);
    }
    var face := FaceArt(num);
    FacePlain(num);
    var result := new AsciiArt();
    var i := 0;
    while i < FaceHeight
      invariant 0 <= i <= FaceHeight
      invariant result.Valid() && fresh(result.art.Repr)
      invariant result.Rows() == face[..i]
    {
      assert PlainRow(face[i]);
      var added := result.AddLine(face[i]);
      assert added.Pass?;
      i := i + 1;
    }
    assert face[..FaceHeight] == face;
    r := Ok(result);
  }

  /** Every row of a face picture is plain, so add_line takes each of them. */
  lemma FacePlain(num: NumPoints)
    requires CheckNumPoints(num)
    ensures PlainRows(FaceArt(num))
  {
    FaceArtsPlain();
  }

  /** The exact sum of some chances. */
  function Total(cs: seq<Chance>): nat
  {
    if cs == [] then 0 else Total(cs[..|cs| - 1]) + cs[|cs| - 1]
  }

  /** prefix[i] as random_odds computes it: chance 0, then each next chance added in
      unsigned (wrapping) arithmetic. */
  function PrefixAt(cs: seq<Chance>, i: nat): Chance
    requires i < |cs|
  {
    if i == 0 then cs[0] else (PrefixAt(cs, i - 1) + cs[i]) % ChanceModulus
  }

  function PrefixSums(cs: seq<Chance>): (p: seq<Chance>)
    ensures |p| == |cs| && forall i :: 0 <= i < |cs| ==> p[i] == PrefixAt(cs, i)
  {
    seq(|cs|, i requires 0 <= i < |cs| => PrefixAt(cs, i))
  }

  lemma ModAdd(a: nat, c: nat)
    ensures (a % ChanceModulus + c) % ChanceModulus == (a + c) % ChanceModulus
  {
  }

  /** Each wrapped prefix sum is the exact sum of the chances up to it, modulo 2^32. */
  lemma {:induction false} PrefixAtTotal(cs: seq<Chance>, i: nat)
    requires i < |cs|
    ensures PrefixAt(cs, i) == Total(cs[..i + 1]) % ChanceModulus
    decreases i
  {
    assert cs[..i + 1][..i] == cs[..i];
    if i == 0 {
      assert cs[..0] == [];
    } else {
      PrefixAtTotal(cs, i - 1);
      ModAdd(Total(cs[..i]), cs[i]);
    }
  }

  /** The exact sums grow along the sequence. */
  lemma {:induction false} TotalMonotone(cs: seq<Chance>, i: nat, j: nat)
    requires i <= j <= |cs|
    ensures Total(cs[..i]) <= Total(cs[..j])
    decreases j - i
  {
    if i < j {
      assert cs[..j][..j - 1] == cs[..j - 1];
      TotalMonotone(cs, i, j - 1);
    }
  }

  /** Every entry of the sequence is no greater than any later one. */
  predicate Nondecreasing(s: seq<Chance>)
  {
    forall i, j :: 0 <= i <= j < |s| ==> s[i] <= s[j]
  }

  lemma PrefixAtExact(cs: seq<Chance>, i: nat)
    requires Total(cs) < ChanceModulus && i < |cs|
    ensures PrefixAt(cs, i) == Total(cs[..i + 1])
  {
    assert cs[..|cs|] == cs;
    PrefixAtTotal(cs, i);
    TotalMonotone(cs, i + 1, |cs|);
  }

  /** When the chances sum to less than 2^32 nothing wraps: the prefix sums are exact and
      nondecreasing. */
  lemma PrefixSumsExact(cs: seq<Chance>)
    requires Total(cs) < ChanceModulus
    ensures forall i :: 0 <= i < |cs| ==> PrefixSums(cs)[i] == Total(cs[..i + 1])
    ensures Nondecreasing(PrefixSums(cs))
  {
    PrefixSumsTotals(cs);
    PrefixSumsSorted(cs);
  }

  lemma PrefixSumsTotals(cs: seq<Chance>)
    requires Total(cs) < ChanceModulus
    ensures forall i :: 0 <= i < |cs| ==> PrefixSums(cs)[i] == Total(cs[..i + 1])
  {
    forall i | 0 <= i < |cs|
      ensures PrefixSums(cs)[i] == Total(cs[..i + 1])
    {
      PrefixAtExact(cs, i);
    }
  }

  lemma PrefixSumsSorted(cs: seq<Chance>)
    requires Total(cs) < ChanceModulus
    ensures Nondecreasing(PrefixSums(cs))
  {
    var p := PrefixSums(cs);
    forall i, j | 0 <= i <= j < |cs|
      ensures p[i] <= p[j]
    {
      PrefixAtExact(cs, i);
      PrefixAtExact(cs, j);
      TotalMonotone(cs, i + 1, j + 1);
    }
  }

  /** The least index below 5, from `i` on, whose entry is at least `x`; 5 when there is
      none. */
  function Slot(p: seq<Chance>, x: int, i: nat): (k: nat)
    requires |p| == Faces && i <= 5
    ensures i <= k <= 5
    ensures k < 5 ==> x <= p[k]
    ensures forall j :: i <= j < k ==> p[j] < x
    decreases 5 - i
  {
    if i == 5 then 5 else if x <= p[i] then i else Slot(p, x, i + 1)
  }

  /** find_value: bisection over the six prefix sums (`>> 1` halves a non-negative
      number).  For sorted sums it finds the first face whose sum reaches the draw. */
  method FindValue(prefix: array<Chance>, randomNum: NumPoints) returns (r: NumPoints)
    requires prefix.Length == Faces
    ensures 1 <= r <= 6
    ensures Nondecreasing(prefix[..]) ==> r == 1 + Slot(prefix[..], randomNum, 0)
  {
    var left: NumPoints := 0;
    var right: NumPoints := 5;
    while left < right
      invariant 0 <= left <= right <= 5
      invariant Nondecreasing(prefix[..]) ==> left <= Slot(prefix[..], randomNum, 0) <= right
      decreases right - left
    {
      var mid: NumPoints := left + (right - left) / 2;
      if randomNum > prefix[mid] {
        left := mid + 1;
      } else {
        right := mid;
      }
    }
    r := left + 1;
  }

  /** random_num: the draw reduced modulo the last prefix sum, plus one, stored in an
      unsigned short. */
  function RandomNumber(total: Chance, rand: nat): (x: NumPoints)
    requires total != 0
    ensures x <= total
    ensures total < NumPointsModulus ==> 1 <= x
  {
    ((rand % total) + 1) % NumPointsModulus
  }

  /** The face random_odds returns for the draw `rand`, read off sorted prefix sums. */
  function Pick(cs: seq<Chance>, rand: nat): (face: nat)
    requires |cs| == Faces && PrefixAt(cs, 5) != 0
    ensures 1 <= face <= 6
  {
    1 + Slot(PrefixSums(cs), RandomNumber(PrefixAt(cs, 5), rand), 0)
  }

  /** random_odds: the six prefix sums into a local array, the draw reduced to
      1..prefix[5], then find_value. */
  method RandomOdds(chances: seq<Chance>, rand: nat) returns (r: NumPoints)
    requires |chances| == Faces && PrefixAt(chances, 5) != 0
    ensures 1 <= r <= 6
    ensures Total(chances) < ChanceModulus ==> r == Pick(chances, rand)
  {
    var prefix := new Chance[Faces];
    prefix[0] := chances[0];
    var i := 1;
    while i < Faces
      invariant 1 <= i <= Faces
      invariant forall k :: 0 <= k < i ==> prefix[k] == PrefixAt(chances, k)
    {
      prefix[i] := (prefix[i - 1] + chances[i]) % ChanceModulus;
      i := i + 1;
    }
    assert prefix[..] == PrefixSums(chances);
    var randomNum := RandomNumber(prefix[5], rand);
    r := FindValue(prefix, randomNum);
    if Total(chances) < ChanceModulus {
      PrefixSumsExact(chances);
    }
  }

  /** While the chances sum to less than 2^16, the draw lies in 1..sum and the face
      picked is the one whose interval of the sums holds it. */
  lemma PickInInterval(cs: seq<Chance>, rand: nat)
    requires |cs| == Faces && PrefixAt(cs, 5) != 0 && Total(cs) < NumPointsModulus
    ensures PrefixAt(cs, 5) == Total(cs)
    ensures 1 <= RandomNumber(PrefixAt(cs, 5), rand) <= Total(cs)
    ensures Total(cs[..Pick(cs, rand) - 1]) < RandomNumber(PrefixAt(cs, 5), rand) <= Total(cs[..Pick(cs, rand)])
  {
    PrefixSumsExact(cs);
    assert cs[..6] == cs;
    var k := Pick(cs, rand) - 1;
    var p := PrefixSums(cs);
    if k > 0 {
      assert p[k - 1] == Total(cs[..k]);
    } else {
      assert cs[..0] == [];
    }
    if k < 5 {
      assert p[k] == Total(cs[..k + 1]);
    }
  }

  /** A face whose chance is zero is never picked while the sum stays below 2^16. */
  lemma PickHasChance(cs: seq<Chance>, rand: nat)
    requires |cs| == Faces && PrefixAt(cs, 5) != 0 && Total(cs) < NumPointsModulus
    ensures cs[Pick(cs, rand) - 1] > 0
  {
    PickInInterval(cs, rand);
    var k := Pick(cs, rand);
    assert cs[..k][..k - 1] == cs[..k - 1];
  }

  lemma StandardTotal()
    ensures Total(StandardOdds) == 6
  {
    var cs := StandardOdds;
    assert cs[..0] == [];
    assert forall i :: 1 <= i <= 6 ==> cs[..i][..i - 1] == cs[..i - 1];
    assert Total(cs[..1]) == 1;
    assert Total(cs[..2]) == 2;
    assert Total(cs[..3]) == 3;
    assert Total(cs[..4]) == 4;
    assert Total(cs[..5]) == 5;
    assert Total(cs[..6]) == 6;
    assert cs[..6] == cs;
  }

  /** With the default odds the face is the draw modulo six, plus one. */
  lemma StandardPick(rand: nat)
    ensures PrefixAt(StandardOdds, 5) == 6 && Total(StandardOdds) == 6
    ensures Pick(StandardOdds, rand) == rand % 6 + 1
  {
    var cs := StandardOdds;
    assert PrefixAt(cs, 0) == 1;
    assert PrefixAt(cs, 1) == 2;
    assert PrefixAt(cs, 2) == 3;
    assert PrefixAt(cs, 3) == 4;
    assert PrefixAt(cs, 4) == 5;
    assert PrefixAt(cs, 5) == 6;
    StandardTotal();
    var p := PrefixSums(cs);
    var x := RandomNumber(6, rand);
    assert x == rand % 6 + 1;
    var k := Slot(p, x, 0);
    assert forall j :: 0 <= j < 6 ==> p[j] == j + 1;
    if k > 0 {
      assert p[k - 1] < x;
    }
  }

  /** The draw as the source evidently means it: in 1..prefix[5], with no truncation to
      an unsigned short. */
  function WideRandomNumber(total: Chance, rand: nat): (x: nat)
    requires total != 0
    ensures 1 <= x <= total
  {
    (rand % total) + 1
  }

  function WidePick(cs: seq<Chance>, rand: nat): (face: nat)
    requires |cs| == Faces && PrefixAt(cs, 5) != 0
    ensures 1 <= face <= 6
  {
    1 + Slot(PrefixSums(cs), WideRandomNumber(PrefixAt(cs, 5), rand), 0)
  }

  /** With the untruncated draw, every sum below 2^32 picks the face whose interval
      holds the draw, and never a face of chance zero. */
  lemma WidePickInInterval(cs: seq<Chance>, rand: nat)
    requires |cs| == Faces && PrefixAt(cs, 5) != 0 && Total(cs) < ChanceModulus
    ensures PrefixAt(cs, 5) == Total(cs)
    ensures Total(cs[..WidePick(cs, rand) - 1]) < WideRandomNumber(PrefixAt(cs, 5), rand) <= Total(cs[..WidePick(cs, rand)])
    ensures cs[WidePick(cs, rand) - 1] > 0
  {
    PrefixSumsExact(cs);
    assert cs[..6] == cs;
    var k := WidePick(cs, rand) - 1;
    var p := PrefixSums(cs);
    if k > 0 {
      assert p[k - 1] == Total(cs[..k]);
    } else {
      assert cs[..0] == [];
    }
    if k < 5 {
      assert p[k] == Total(cs[..k + 1]);
    }
    assert cs[..k + 1][..k] == cs[..k];
  }

  /** Below 2^16 the truncation changes nothing. */
  lemma PickIsWidePick(cs: seq<Chance>, rand: nat)
    requires |cs| == Faces && PrefixAt(cs, 5) != 0 && Total(cs) < NumPointsModulus
    ensures Pick(cs, rand) == WidePick(cs, rand)
  {
    PrefixAtExact(cs, 5);
    assert cs[..6] == cs;
    var x := RandomNumber(PrefixAt(cs, 5), rand);
    assert x == WideRandomNumber(PrefixAt(cs, 5), rand);
  }

  /** Odds {0, 0, 0, 0, 0, 65536} and a draw of 65535: the draw becomes 65536, the
      unsigned short holds 0, and face one comes up although its chance is zero. */
  lemma PickTruncated()
    ensures PrefixAt([0, 0, 0, 0, 0, 65536], 5) == 65536
    ensures Pick([0, 0, 0, 0, 0, 65536], 65535) == 1
    ensures WidePick([0, 0, 0, 0, 0, 65536], 65535) == 6
  {
    var cs: seq<Chance> := [0, 0, 0, 0, 0, 65536];
    assert PrefixAt(cs, 0) == 0;
    assert PrefixAt(cs, 1) == 0;
    assert PrefixAt(cs, 2) == 0;
    assert PrefixAt(cs, 3) == 0;
    assert PrefixAt(cs, 4) == 0;
    assert PrefixAt(cs, 5) == 65536;
    var p := PrefixSums(cs);
    assert RandomNumber(65536, 65535) == 0;
    assert Slot(p, 0, 0) == 0;
    assert WideRandomNumber(65536, 65535) == 65536;
    assert forall j :: 0 <= j < 5 ==> p[j] == 0;
    assert Slot(p, 65536, 0) == 5;
  }

  /** output: `{value: V; odds: {c0, c1, c2, c3, c4, c5}}`, the odds written as the
      Odds output operator writes them. */
  function DieText(value: NumPoints, cs: seq<Chance>): (s: seq<char>)
    requires |cs| == Faces
    ensures ReadDieText(s) == Ok((value as nat, AsNats(cs), []))
  {
    DieTextRoundTrip(value, cs, []);
    assert DieTextRaw(value, cs) + [] == DieTextRaw(value, cs);
    DieTextRaw(value, cs)
  }

  function DieTextRaw(value: NumPoints, cs: seq<Chance>): seq<char>
    requires |cs| == Faces
  {
    "{value: " + (Digits(value) + ("; odds: " + (Braced(AsNats(cs)) + "}")))
  }

  /** Reads the text output writes: the value, then the six chances. */
  function ReadDieText(s: seq<char>): Result<(nat, seq<nat>, seq<char>)>
  {
    match Expect(s, "{value: ")
    case Err(e) => Err(e)
    case Ok(a) =>
      match ReadNat(a)
      case Err(e) => Err(e)
      case Ok((v, b)) =>
        match Expect(b, "; odds: ")
        case Err(e) => Err(e)
        case Ok(c) =>
          match ReadBraced(c, Faces)
          case Err(e) => Err(e)
          case Ok((cs, d)) =>
            match Expect(d, "}")
            case Err(e) => Err(e)
            case Ok(rest) => Ok((v, cs, rest))
  }

  /** The text output writes reads back as the value and the chances. */
  lemma DieTextRoundTrip(value: NumPoints, cs: seq<Chance>, rest: seq<char>)
    requires |cs| == Faces
    ensures ReadDieText(DieTextRaw(value, cs) + rest) == Ok((value as nat, AsNats(cs), rest))
  {
    var tail := "}" + rest;
    var c := Braced(AsNats(cs)) + tail;
    var b := "; odds: " + c;
    var a := Digits(value) + b;
    var s := DieTextRaw(value, cs) + rest;
    assert s == "{value: " + a;
    ExpectPrefix("{value: ", a);
    ReadNatDigits(value, b);
    ExpectPrefix("; odds: ", c);
    BracedRoundTrip(AsNats(cs), tail);
    ExpectPrefix("}", rest);
  }

  lemma ExpectPrefix(lit: seq<char>, rest: seq<char>)
    ensures Expect(lit + rest, lit) == Ok(rest)
  {
    assert (lit + rest)[|lit|..] == rest;
  }

  class OneDice {
    var value: NumPoints
    const odds: Odds

    ghost predicate Valid()
      reads this, odds
    {
      odds.Valid()
    }

    /** The die as a value. */
    function State(): Die
      reads this, odds, odds.chances
      requires Valid()
    {
      Die(value, odds.Values())
    }

    /** The in-class defaults every constructor starts from: default Odds and value 0. */
    constructor Defaults()
      ensures Valid() && fresh(odds) && fresh(odds.chances)
      ensures value == 0 && odds.Values() == StandardOdds
    {
      value := 0;
      odds := new Odds();
    }

    /** OneDice(const Odds&): set_odds, then to_change_value. */
    constructor (inputOdds: Odds, rand: nat)
      requires inputOdds.Valid() && PrefixAt(inputOdds.Values(), 5) != 0
      ensures Valid() && fresh(odds) && fresh(odds.chances)
      ensures odds.Values() == inputOdds.Values()
      ensures 1 <= value <= 6
      ensures Total(odds.Values()) < ChanceModulus ==> value == Pick(odds.Values(), rand)
    {
      value := 0;
      odds := new Odds();
      new;
      SetOdds(inputOdds);
      var drawn := ToChangeValue(rand);
    }

    /** OneDice(NumPoints, const Odds&): set_odds, then set_value, whose
        invalid_argument the constructor passes on. */
    static method WithValue(v: NumPoints, inputOdds: Odds) returns (r: Result<OneDice>)
      requires inputOdds.Valid()
      ensures r.Err? <==> !CheckNumPoints(v)
      ensures r.Err? ==> r.error == InvalidArgument
      ensures r.Ok? ==> fresh(r.value) && fresh(r.value.odds) && fresh(r.value.odds.chances) && r.value.Valid()
      ensures r.Ok? ==> r.value.value == v && r.value.odds.Values() == inputOdds.Values()
    {
      var d := new OneDice.Defaults();
      d.SetOdds(inputOdds);
      var stored := d.SetValue(v);
      if stored.Fail? {
        return Err(InvalidArgument);
      }
      r := Ok(d);
    }

    /** The copy constructor: the copy assignment. */
    constructor Copy(other: OneDice)
      requires other.Valid()
      ensures Valid() && fresh(odds) && fresh(odds.chances)
      ensures value == other.value && odds.Values() == other.odds.Values()
    {
      value := 0;
      odds := new Odds();
      new;
      Assign(other);
    }

    /** The move constructor: the move assignment, which leaves the other die at 0. */
    constructor Move(other: OneDice)
      requires other.Valid()
      modifies other
      ensures Valid() && fresh(odds) && fresh(odds.chances)
      ensures value == old(other.value) && odds.Values() == other.odds.Values()
      ensures other.value == 0 && other.odds.Values() == old(other.odds.Values())
    {
      value := 0;
      odds := new Odds();
      new;
      MoveAssign(other);
    }

    /** set_odds: the Odds copy assignment. */
    method SetOdds(inputOdds: Odds)
      requires Valid() && inputOdds.Valid()
      requires inputOdds != odds ==> inputOdds.chances != odds.chances
      modifies odds.chances
      ensures odds.Values() == old(inputOdds.Values())
      ensures inputOdds != odds ==> inputOdds.Values() == old(inputOdds.Values())
    {
      odds.Assign(inputOdds);
    }

    /** set_value: invalid_argument for a value outside one to six, which is then not
        stored. */
    method SetValue(v: NumPoints) returns (r: Outcome)
      modifies this
      ensures r == if CheckNumPoints(v) then Pass else Fail(InvalidArgument)
      ensures value == if r.Pass? then v else old(value)
    {
      if !CheckNumPoints(v) {
        return Fail(InvalidArgument);
      }
      value := v;
      r := Pass;
    }

    /** to_change_value: a new face drawn with the die's odds. */
    method ToChangeValue(rand: nat) returns (r: NumPoints)
      requires Valid() && PrefixAt(odds.Values(), 5) != 0
      modifies this
      ensures value == r && 1 <= r <= 6
      ensures Total(odds.Values()) < ChanceModulus ==> r == Pick(odds.Values(), rand)
    {
      value := RandomOdds(odds.chances[..], rand);
      r := value;
    }

    /** get_value_AsciiArt: the picture of the face shown. */
    method GetValueAsciiArt() returns (r: Result<AsciiArt>)
      ensures r.Err? <==> !CheckNumPoints(value)
      ensures r.Err? ==> r.error == InvalidArgument
      ensures r.Ok? ==> r.value.Valid() && fresh(r.value.art.Repr) && r.value.Rows() == FaceArt(value)
    {
      r := NumPointsToAsciiArt(value);
    }

    /** get_odds: a copy of the die's odds. */
    method GetOdds() returns (r: Odds)
      requires Valid()
      ensures fresh(r) && fresh(r.chances) && r.Valid() && r.Values() == odds.Values()
    {
      r := new Odds.Copy(odds);
    }

    /** operator==: the faces shown; the frame leaves out both dice's odds, so they
        cannot matter. */
    function Equal(other: OneDice): (r: bool)
      reads this, other
      ensures r <==> value == other.value
    {
      value == other.value
    }

    /** Copy assignment: with a self check, the value and the odds are copied. */
    method Assign(other: OneDice)
      requires Valid() && other.Valid()
      requires other != this ==> other.odds.chances != odds.chances
      modifies this, odds.chances
      ensures value == old(other.value) && odds.Values() == old(other.odds.Values())
      ensures other != this ==> other.value == old(other.value) && other.odds.Values() == old(other.odds.Values())
    {
      if this == other {
        return;
      }
      value := other.value;
      odds.Assign(other.odds);
    }

    /** Move assignment: no self check; the value and the odds are copied and the other
        die's value set to 0, so moving a die onto itself leaves it at 0. */
    method MoveAssign(other: OneDice)
      requires Valid() && other.Valid()
      requires other != this ==> other.odds.chances != odds.chances
      modifies this, other, odds.chances
      ensures odds.Values() == old(other.odds.Values()) && other.value == 0
      ensures other != this ==> value == old(other.value) && other.odds.Values() == old(other.odds.Values())
    {
      value := other.value;
      odds.MoveAssign(other.odds);
      other.value := 0;
    }

    /** output as the text it writes. */
    function Text(): (s: seq<char>)
      reads this, odds, odds.chances
      requires Valid()
      ensures ReadDieText(s) == Ok((value as nat, AsNats(odds.Values()), []))
    {
      DieText(value, odds.chances[..])
    }
  }
}
