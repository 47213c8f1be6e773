/** Dice: a set of dice held in a Vector.  The C++ vector holds OneDice objects by
    value, so here it holds each die as a value (OneDices.Die): the face it shows and
    its six chances. */
module DiceSet {
  import opened Wrappers
  import opened VectorIterators
  import opened Vectors
  import opened Texts
  import opened OddsTable
  import opened AsciiArts
  import opened OneDices

  /** The faces the dice show, in order. */
  function Values(dice: seq<Die>): (vs: seq<NumPoints>)
    ensures |vs| == |dice| && forall i :: 0 <= i < |dice| ==> vs[i] == dice[i].value
  {
    seq(|dice|, i requires 0 <= i < |dice| => dice[i].value)
  }

  /** Every die shows a face from one to six. */
  predicate AllFaces(dice: seq<Die>)
  {
    forall i :: 0 <= i < |dice| ==> CheckNumPoints(dice[i].value)
  }

  /** The exact sum of the faces shown. */
  function SumOf(dice: seq<Die>): nat
  {
    if dice == [] then 0 else SumOf(dice[..|dice| - 1]) + dice[|dice| - 1].value
  }

  /** How many dice show `v`. */
  function CountOf(dice: seq<Die>, v: NumPoints): nat
  {
    if dice == [] then 0
    else CountOf(dice[..|dice| - 1], v) + (if dice[|dice| - 1].value == v then 1 else 0)
  }

  /** The dice that do not show `v`, in their order. */
  function Without(dice: seq<Die>, v: NumPoints): seq<Die>
  {
    if dice == [] then []
    else Without(dice[..|dice| - 1], v) + (if dice[|dice| - 1].value == v then [] else [dice[|dice| - 1]])
  }

  /** Without over one more die. */
  lemma WithoutStep(dice: seq<Die>, j: nat, v: NumPoints)
    requires j < |dice|
    ensures Without(dice[..j + 1], v) ==
              Without(dice[..j], v) + (if dice[j].value == v then [] else [dice[j]])
  {
    assert dice[..j + 1][..j] == dice[..j];
  }

  /** The pieces of `w + s[j..]` around position `|w|`. */
  lemma SplitAround<T>(w: seq<T>, s: seq<T>, j: nat)
    requires j < |s|
    ensures (w + s[j..])[|w|] == s[j]
    ensures (w + s[j..])[..|w|] == w
    ensures (w + s[j..])[|w| + 1..] == s[j + 1..]
    ensures w + s[j..] == (w + [s[j]]) + s[j + 1..]
  {
    assert s[j..] == [s[j]] + s[j + 1..];
  }

  /** One step of the walk of operator-= keeps "the dice already walked, without `v`,
      then the dice still to walk". */
  lemma WalkStep(before: seq<Die>, j: nat, v: NumPoints, e: seq<Die>)
    requires j < |before| && e == Without(before[..j], v) + before[j..]
    ensures |Without(before[..j], v)| < |e| && e[|Without(before[..j], v)|] == before[j]
    ensures before[j].value == v ==>
              |Without(before[..j + 1], v)| == |Without(before[..j], v)| &&
              e[..|Without(before[..j], v)|] + e[|Without(before[..j], v)| + 1..]
                == Without(before[..j + 1], v) + before[j + 1..]
    ensures before[j].value != v ==>
              |Without(before[..j + 1], v)| == |Without(before[..j], v)| + 1 &&
              e == Without(before[..j + 1], v) + before[j + 1..]
  {
    var w := Without(before[..j], v);
    WithoutStep(before, j, v);
    SplitAround(w, before, j);
  }

  /** Removing the dice that show `v` removes exactly CountOf of them and leaves none
      that shows `v`. */
  lemma {:induction false} WithoutCount(dice: seq<Die>, v: NumPoints)
    ensures |Without(dice, v)| == |dice| - CountOf(dice, v)
    ensures forall i :: 0 <= i < |Without(dice, v)| ==> Without(dice, v)[i].value != v
    decreases |dice|
  {
    if dice != [] {
      var init := dice[..|dice| - 1];
      var last := dice[|dice| - 1];
      WithoutCount(init, v);
      var w := Without(init, v);
      if last.value != v {
        assert Without(dice, v) == w + [last];
        assert forall i :: 0 <= i < |w| ==> (w + [last])[i] == w[i];
      }
    }
  }

  /** Removing adds no die, and a value no die shows removes nothing. */
  lemma {:induction false} WithoutKeeps(dice: seq<Die>, v: NumPoints)
    ensures forall d :: d in Without(dice, v) ==> d in dice
    ensures CountOf(dice, v) == 0 ==> Without(dice, v) == dice
    decreases |dice|
  {
    if dice != [] {
      var init := dice[..|dice| - 1];
      var last := dice[|dice| - 1];
      WithoutKeeps(init, v);
      var w := Without(init, v);
      var kept := if last.value == v then [] else [last];
      assert Without(dice, v) == w + kept;
      assert init + [last] == dice;
      forall d | d in w + kept
        ensures d in dice
      {
        if d in w {
          assert d in init;
        } else {
          assert d == last;
        }
      }
    }
  }

  /** Removing takes v points per removed die off the sum. */
  lemma {:induction false} WithoutSum(dice: seq<Die>, v: NumPoints)
    ensures SumOf(Without(dice, v)) + v * CountOf(dice, v) == SumOf(dice)
    decreases |dice|
  {
    if dice != [] {
      var init := dice[..|dice| - 1];
      WithoutSum(init, v);
      if dice[|dice| - 1].value == v {
        WithoutSumShown(dice, v);
      } else {
        WithoutSumKept(dice, v);
      }
    }
  }

  /** The step of WithoutSum when the last die shows `v`: it moves from the kept sum to
      the counted part. */
  lemma WithoutSumShown(dice: seq<Die>, v: NumPoints)
    requires dice != [] && dice[|dice| - 1].value == v
    requires SumOf(Without(dice[..|dice| - 1], v)) + v * CountOf(dice[..|dice| - 1], v)
             == SumOf(dice[..|dice| - 1])
    ensures SumOf(Without(dice, v)) + v * CountOf(dice, v) == SumOf(dice)
  {
    var init := dice[..|dice| - 1];
    var w := Without(init, v);
    var c := CountOf(init, v);
    assert Without(dice, v) == w + [];
    assert w + [] == w;
    assert CountOf(dice, v) == c + 1;
    MulSucc(v, c);
  }

  /** The step of WithoutSum when the last die shows another face: it stays in the
      kept dice. */
  lemma WithoutSumKept(dice: seq<Die>, v: NumPoints)
    requires dice != [] && dice[|dice| - 1].value != v
    requires SumOf(Without(dice[..|dice| - 1], v)) + v * CountOf(dice[..|dice| - 1], v)
             == SumOf(dice[..|dice| - 1])
    ensures SumOf(Without(dice, v)) + v * CountOf(dice, v) == SumOf(dice)
  {
    var init := dice[..|dice| - 1];
    var last := dice[|dice| - 1];
    var w := Without(init, v);
    assert Without(dice, v) == w + [last];
    assert CountOf(dice, v) == CountOf(init, v);
    SumOfAppend(w, last);
  }

  lemma MulSucc(v: nat, c: nat)
    ensures v * (c + 1) == v * c + v
  {
  }

  /** The exact sum grows by the face of each die appended. */
  lemma SumOfAppend(dice: seq<Die>, d: Die)
    ensures SumOf(dice + [d]) == SumOf(dice) + d.value
  {
    assert (dice + [d])[..|dice|] == dice;
  }

  /** One step of the accumulation in Dice::sum: the running total, cut to unsigned
      short and increased by the next face, still agrees with the exact sum modulo
      2^16. */
  lemma SumStep(done: seq<Die>, d: Die, total: int)
    requires total % NumPointsModulus == SumOf(done) % NumPointsModulus
    ensures (total % NumPointsModulus + d.value) % NumPointsModulus
            == SumOf(done + [d]) % NumPointsModulus
  {
    SumOfAppend(done, d);
    ModAddShort(SumOf(done), d.value);
  }

  lemma ModAddShort(a: nat, c: nat)
    ensures (a % NumPointsModulus + c) % NumPointsModulus == (a + c) % NumPointsModulus
  {
  }

  /** `d` is `was` rolled with the draw `rand`: the same chances, a face from one to
      six, and the face Pick gives whenever the chances sum to less than 2^32. */
  predicate Rolled(d: Die, was: Die, rand: nat)
  {
    && d.odds == was.odds && 1 <= d.value <= 6
    && (PrefixAt(was.odds, 5) != 0 && Total(was.odds) < ChanceModulus ==> d.value == Pick(was.odds, rand))
  }

  /** Rolling the die at `p` extends the rolled prefix by one and leaves the rest. */
  lemma RollStep(now: seq<Die>, next: seq<Die>, before: seq<Die>, rands: seq<nat>, p: nat)
    requires |now| == |before| == |rands| && p < |before|
    requires forall k :: 0 <= k < p ==> Rolled(now[k], before[k], rands[k])
    requires forall k :: p <= k < |before| ==> now[k] == before[k]
    requires |next| == |now| && next == now[p := next[p]] && Rolled(next[p], now[p], rands[p])
    ensures forall k :: 0 <= k < p + 1 ==> Rolled(next[k], before[k], rands[k])
    ensures forall k :: p + 1 <= k < |before| ==> next[k] == before[k]
  {
  }

  /** The pictures of a row of valid faces, one per die. */
  function FacesOf(vs: seq<NumPoints>): (faces: seq<FacePicture>)
    requires forall i :: 0 <= i < |vs| ==> CheckNumPoints(vs[i])
    ensures |faces| == |vs| && forall i :: 0 <= i < |vs| ==> faces[i] == FaceArt(vs[i])
  {
    seq(|vs|, i requires 0 <= i < |vs| => FaceArt(vs[i]))
  }

  /** The first `n` face pictures placed side by side: the left fold of AsciiArt's
      operator+ over them. */
  function Strip(faces: seq<FacePicture>, n: nat): (rows: seq<seq<char>>)
    requires 1 <= n <= |faces|
    ensures |rows| == FaceHeight
    decreases n
  {
    if n == 1 then faces[0] else Beside(Strip(faces, n - 1), faces[n - 1])
  }

  /** The picture of a row of valid faces; no dice give an empty picture. */
  function Picture(vs: seq<NumPoints>): (rows: seq<seq<char>>)
    requires forall i :: 0 <= i < |vs| ==> CheckNumPoints(vs[i])
    ensures |vs| == 0 ==> rows == []
    ensures |vs| > 0 ==> |rows| == FaceHeight
  {
    if |vs| == 0 then [] else Strip(FacesOf(vs), |vs|)
  }

  /** Row `r` of the first `n` faces side by side is twelve characters per face. */
  lemma {:induction false} StripWidth(faces: seq<FacePicture>, n: nat, r: nat)
    requires 1 <= n <= |faces| && r < FaceHeight
    ensures |Strip(faces, n)[r]| == 12 * n
    decreases n
  {
    if n > 1 {
      StripWidth(faces, n - 1, r);
      assert Strip(faces, n)[r] == Strip(faces, n - 1)[r] + faces[n - 1][r];
    }
  }

  /** The `k`-th block of twelve characters of row `r` of the first `n` faces side by
      side is row `r` of face `k`. */
  lemma {:induction false} StripTiles(faces: seq<FacePicture>, n: nat, r: nat, k: nat)
    requires 1 <= n <= |faces| && r < FaceHeight && k < n
    ensures 12 * k + 12 <= |Strip(faces, n)[r]|
    ensures Strip(faces, n)[r][12 * k .. 12 * k + 12] == faces[k][r]
    decreases n
  {
    StripWidth(faces, n, r);
    var tile := faces[k][r];
    var row := Strip(faces, n)[r];
    if n == 1 {
      assert row == tile;
      assert row[0..|row|] == row;
    } else {
      var left := Strip(faces, n - 1)[r];
      var right := faces[n - 1][r];
      assert row == left + right;
      StripWidth(faces, n - 1, r);
      if k < n - 1 {
        StripTiles(faces, n - 1, r, k);
      }
      TileAppend(left, right, 12 * k, tile);
    }
  }

  /** Row `r` of the picture is twelve characters per die, and the `k`-th block of
      twelve is row `r` of die `k`'s face. */
  lemma PictureTiles(vs: seq<NumPoints>, r: nat, k: nat)
    requires forall i :: 0 <= i < |vs| ==> CheckNumPoints(vs[i])
    requires r < FaceHeight && k < |vs|
    ensures |Picture(vs)[r]| == 12 * |vs|
    ensures Picture(vs)[r][12 * k .. 12 * k + 12] == FaceArt(vs[k])[r]
  {
    StripWidth(FacesOf(vs), |vs|, r);
    StripTiles(FacesOf(vs), |vs|, r, k);
  }

  /** A block of `left` or the whole of `right` is the same block of `left + right`. */
  lemma TileAppend(left: seq<char>, right: seq<char>, lo: nat, tile: seq<char>)
    requires (lo + |tile| <= |left| && left[lo..lo + |tile|] == tile) || (lo == |left| && right == tile)
    ensures lo + |tile| <= |left + right| && (left + right)[lo..lo + |tile|] == tile
  {
  }

  /** The leading part of operator<< on Dice: every face but the last followed by ", ". */
  function Leading(vs: seq<nat>): seq<char>
  {
    if vs == [] then [] else Digits(vs[0]) + ", " + Leading(vs[1..])
  }

  /** operator<< on non-empty Dice: `{`, the leading faces, the last face, `}`. */
  function DiceText(vs: seq<nat>): seq<char>
    requires |vs| >= 1
  {
    "{" + Leading(vs[..|vs| - 1]) + Digits(vs[|vs| - 1]) + "}"
  }

  lemma {:induction false} LeadingJoin(xs: seq<nat>, last: nat)
    ensures Leading(xs) + Digits(last) == JoinNats(xs + [last], ", ")
    decreases |xs|
  {
    if xs != [] {
      LeadingJoin(xs[1..], last);
      assert (xs + [last])[1..] == xs[1..] + [last];
      assert (xs + [last])[0] == xs[0];
      ConcatAssoc(Digits(xs[0]), ", ", Leading(xs[1..]), Digits(last));
    }
  }

  /** What operator<< writes is the braced list of the faces, which reads back. */
  lemma DiceTextRoundTrip(vs: seq<nat>, rest: seq<char>)
    requires |vs| >= 1
    ensures DiceText(vs) == Braced(vs)
    ensures ReadBraced(DiceText(vs) + rest, |vs|) == Ok((vs, rest))
  {
    var n := |vs|;
    var lead := Leading(vs[..n - 1]);
    var last := Digits(vs[n - 1]);
    LeadingJoin(vs[..n - 1], vs[n - 1]);
    assert vs[..n - 1] + [vs[n - 1]] == vs;
    assert lead + last == JoinNats(vs, ", ");
    ConcatAssoc("{", lead, last, "}");
    assert DiceText(vs) == "{" + (lead + last) + "}";
    BracedRoundTrip(vs, rest);
  }

  function AsNatValues(dice: seq<Die>): (ns: seq<nat>)
    ensures |ns| == |dice| && forall i :: 0 <= i < |dice| ==> ns[i] == dice[i].value
  {
    seq(|dice|, i requires 0 <= i < |dice| => dice[i].value as nat)
  }

  class Dice {
    const arr: Vector<Die>

    ghost predicate Valid()
      reads this, arr, arr.Repr
    {
      arr.Valid()
    }

    function Elements(): (dice: seq<Die>)
      reads this, arr, arr.Repr
      requires Valid()
      ensures |dice| == arr.size
    {
      arr.Elements()
    }

    /** Dice(): no dice. */
    constructor ()
      ensures Valid() && fresh(arr.Repr) && Elements() == [] && arr.capacity > 0
    {
      arr := new Vector();
    }

    /** The copy constructor: the copy assignment. */
    constructor Copy(other: Dice)
      requires other.Valid()
      ensures Valid() && fresh(arr.Repr) && Elements() == other.Elements()
    {
      arr := new Vector();
      new;
      Assign(other);
    }

    /** The move constructor: the move assignment. */
    constructor Move(other: Dice)
      requires other.Valid()
      modifies other.arr
      ensures Valid() && Elements() == old(other.Elements())
      ensures other.Valid() && other.Elements() == [] && other.arr.capacity == 0
    {
      arr := new Vector();
      new;
      arr.MoveAssign(other.arr);
    }

    /** Dice(size): a vector of `n` default-constructed dice moved into place. */
    constructor Sized(n: nat, rands: seq<nat>)
      requires |rands| == n
      ensures Valid() && fresh(arr.Repr) && arr.capacity == n
      ensures Elements() == seq(n, i requires 0 <= i < n => Die(rands[i] % 6 + 1, StandardOdds))
    {
      arr := new Vector();
      new;
      var dice := DefaultDice(n, rands);
      arr.MoveAssign(dice);
    }

    /** Vector<OneDice>(n): `n` dice built by OneDice(), each with the default odds and a
        face drawn from them, `rands[i]` as the draw for die i. */
    static method DefaultDice(n: nat, rands: seq<nat>) returns (dice: Vector<Die>)
      requires |rands| == n
      ensures dice.Valid() && fresh(dice.Repr) && dice.capacity == n
      ensures dice.Elements() == seq(n, i requires 0 <= i < n => Die(rands[i] % 6 + 1, StandardOdds))
    {
      dice := new Vector<Die>.WithCapacity(n);
      var it := dice.Begin();
      while it.NotEqual(dice.End())
        invariant dice.Valid() && fresh(dice.Repr) && dice.size == n && dice.capacity == n
        invariant 0 <= it.pos <= n
        invariant forall k :: 0 <= k < it.pos ==> dice.Elements()[k] == Die(rands[k] % 6 + 1, StandardOdds)
        decreases n - it.pos
      {
        StandardPick(rands[it.pos]);
        var face := RandomOdds(StandardOdds, rands[it.pos]);
        ghost var pre := dice.Elements();
        dice.Store(it, Die(face, StandardOdds));
        assert dice.Elements() == pre[it.pos := Die(rands[it.pos] % 6 + 1, StandardOdds)];
        it := it.Next();
      }
    }

    /** Dice(const Vector<NumPoints>&): Dice(size), then each die's set_value with the
        matching input value; the first invalid value ends it with invalid_argument. */
    static method FromValues(values: Vector<NumPoints>, rands: seq<nat>) returns (r: Result<Dice>)
      requires values.Valid() && |rands| == values.size
      ensures values.Elements() == old(values.Elements())
      ensures r.Err? <==> exists i :: 0 <= i < |values.Elements()| && !CheckNumPoints(values.Elements()[i])
      ensures r.Err? ==> r.error == InvalidArgument
      ensures r.Ok? ==> r.value.Valid() && fresh(r.value.arr.Repr)
      ensures r.Ok? ==> Values(r.value.Elements()) == values.Elements()
      ensures r.Ok? ==> forall i :: 0 <= i < |r.value.Elements()| ==> r.value.Elements()[i].odds == StandardOdds
    {
      var dice := new Dice.Sized(values.GetSize(), rands);
      ghost var input := values.Elements();
      var iter := values.Begin();
      var line := dice.arr.Begin();
      while line.NotEqual(dice.arr.End())
        invariant dice.Valid() && fresh(dice.arr.Repr) && dice.arr.size == |input| && dice.arr.capacity == |input|
        invariant values.Elements() == input
        invariant 0 <= line.pos <= |input| && iter == line
        invariant forall k :: 0 <= k < |input| ==> dice.Elements()[k].odds == StandardOdds
        invariant forall k :: 0 <= k < line.pos ==> dice.Elements()[k].value == input[k] && CheckNumPoints(input[k])
        decreases |input| - line.pos
      {
        var v := values.Load(iter);
        if !CheckNumPoints(v) {
          return Err(InvalidArgument);
        }
        ghost var pre := dice.Elements();
        var d := dice.arr.Load(line);
        assert d == pre[line.pos];
        dice.arr.Store(line, d.(value := v));
        assert dice.Elements() == pre[line.pos := d.(value := v)];
        iter := iter.Next();
        line := line.Next();
      }
      assert Values(dice.Elements()) == input;
      r := Ok(dice);
    }

    /** get_AsciiArt: an empty art for no dice; otherwise the first die's picture with the
        others' pictures added one at a time with operator+.  The call is noexcept, so a
        die showing no valid face (which would throw) is excluded. */
    method GetAsciiArt() returns (r: AsciiArt)
      requires Valid() && AllFaces(Elements())
      ensures r.Valid() && fresh(r.art.Repr)
      ensures r.Rows() == Picture(Values(Elements()))
    {
      if arr.GetSize() == 0 {
        r := new AsciiArt();
        return;
      }
      r := FoldFaces();
    }

    /** get_AsciiArt on some dice: the first die's picture, then from the second die on
        each die's picture added to the picture so far. */
    method FoldFaces() returns (r: AsciiArt)
      requires Valid() && AllFaces(Elements()) && |Elements()| >= 1
      ensures r.Valid() && fresh(r.art.Repr)
      ensures r.Rows() == Strip(FacesOf(Values(Elements())), |Elements()|)
    {
      var first := FirstFace();
      r := FoldFrom(arr, first, FacesOf(Values(arr.Elements())));
    }

    /** The loop of get_AsciiArt's fold, from the second die to the last. */
    static method FoldFrom(arr: Vector<Die>, first: AsciiArt, ghost faces: seq<FacePicture>)
        returns (r: AsciiArt)
      requires arr.Valid() && AllFaces(arr.Elements()) && arr.size >= 1
      requires faces == FacesOf(Values(arr.Elements()))
      requires first.Valid() && first.Rows() == Strip(faces, 1)
      ensures r.Valid() && (r == first || fresh(r.art.Repr))
      ensures r.Rows() == Strip(faces, arr.size)
    {
      var picture := first;
      var it := arr.Begin().Plus(1);
      while it.NotEqual(arr.End())
        invariant 1 <= it.pos <= arr.size
        invariant picture.Valid() && (picture == first || fresh(picture.art.Repr))
        invariant picture.Rows() == Strip(faces, it.pos)
        decreases arr.size - it.pos
      {
        picture := AddDie(picture, arr, it, faces);
        it := it.Next();
      }
      r := picture;
    }

    /** The body of get_AsciiArt's fold: the die the iterator points at is read and its
        picture added to the picture so far. */
    static method AddDie(picture: AsciiArt, arr: Vector<Die>, it: Iterator, ghost faces: seq<FacePicture>)
        returns (next: AsciiArt)
      requires arr.Valid() && AllFaces(arr.Elements()) && 1 <= it.pos < arr.size
      requires faces == FacesOf(Values(arr.Elements()))
      requires picture.Valid() && picture.Rows() == Strip(faces, it.pos)
      ensures next.Valid() && fresh(next.art.Repr)
      ensures next.Rows() == Strip(faces, it.pos + 1)
    {
      var die := arr.Load(it);
      assert die.value == Values(arr.Elements())[it.pos];
      next := AddFace(picture, die.value, faces, it.pos);
    }

    /** The start of get_AsciiArt's fold: the picture of the first die. */
    method FirstFace() returns (picture: AsciiArt)
      requires Valid() && AllFaces(Elements()) && |Elements()| >= 1
      ensures picture.Valid() && fresh(picture.art.Repr)
      ensures picture.Rows() == Strip(FacesOf(Values(Elements())), 1)
    {
      assert CheckNumPoints(Values(Elements())[0]);
      var first := NumPointsToAsciiArt(arr.Load(arr.Begin()).value);
      picture := first.value;
    }

    /** One step of get_AsciiArt: the picture of the first `n` dice plus the picture of
        the next die, which shows `value`. */
    static method AddFace(picture: AsciiArt, value: NumPoints, ghost faces: seq<FacePicture>, ghost n: nat)
        returns (next: AsciiArt)
      requires 1 <= n < |faces| && CheckNumPoints(value) && faces[n] == FaceArt(value)
      requires picture.Valid() && picture.Rows() == Strip(faces, n)
      ensures next.Valid() && fresh(next.art.Repr)
      ensures next.Rows() == Strip(faces, n + 1)
    {
      var face := NumPointsToAsciiArt(value);
      var joined := picture.Plus(face.value);
      next := joined.value;
    }

    /** has_NumPoints: invalid_argument for a value outside one to six; otherwise whether
        some die shows it, by a linear search. */
    method HasNumPoints(v: NumPoints) returns (r: Result<bool>)
      requires Valid()
      ensures r.Err? <==> !CheckNumPoints(v)
      ensures r.Err? ==> r.error == InvalidArgument
      ensures r.Ok? ==> (r.value <==> v in Values(Elements()))
    {
      if !CheckNumPoints(v) {
        return Err(InvalidArgument);
      }
      var it := arr.Begin();
      while it.NotEqual(arr.End()) && arr.Load(it).value != v
        invariant 0 <= it.pos <= arr.size
        invariant forall k :: 0 <= k < it.pos ==> arr.Elements()[k].value != v
        decreases arr.size - it.pos
      {
        it := it.Next();
      }
      r := Ok(it.NotEqual(arr.End()));
    }

    /** sum: std::accumulate from the int 0, the lambda taking the running total as an
        unsigned short, and the total returned as one, so the faces are added modulo
        2^16. */
    method Sum() returns (r: NumPoints)
      requires Valid()
      ensures r == SumOf(Elements()) % NumPointsModulus
    {
      var total: int := 0;
      var it := arr.Begin();
      while it.NotEqual(arr.End())
        invariant 0 <= it.pos <= arr.size
        invariant 0 <= total < 2 * NumPointsModulus
        invariant total % NumPointsModulus == SumOf(arr.Elements()[..it.pos]) % NumPointsModulus
        decreases arr.size - it.pos
      {
        ghost var done := arr.Elements()[..it.pos];
        ghost var d := arr.Elements()[it.pos];
        var die := arr.Load(it);
        SumStep(done, d, total);
        total := total % NumPointsModulus + die.value;
        assert arr.Elements()[..it.pos + 1] == done + [d];
        it := it.Next();
      }
      assert arr.Elements()[..it.pos] == arr.Elements();
      r := total % NumPointsModulus;
    }

    /** Copy assignment: the vector's copy assignment. */
    method Assign(other: Dice)
      requires Valid() && other.Valid()
      requires other.arr != arr ==> arr.Repr !! other.arr.Repr
      modifies arr.Repr
      ensures Valid() && fresh(arr.Repr - old(arr.Repr))
      ensures Elements() == old(other.Elements())
      ensures other.arr != arr ==> other.Elements() == old(other.Elements())
    {
      arr.Assign(other.arr);
    }

    /** Move assignment: the vector's move assignment, which empties the other vector. */
    method MoveAssign(other: Dice)
      requires Valid() && other.Valid()
      requires other.arr != arr ==> arr.Repr !! other.arr.Repr
      modifies arr, other.arr
      ensures Valid() && other.Valid()
      ensures Elements() == old(other.Elements())
      ensures other.arr != arr ==> other.Elements() == [] && other.arr.capacity == 0
    {
      arr.MoveAssign(other.arr);
    }

    /** operator()(): every die rolled with its own odds, `rands[i]` as the draw for die i. */
    method RollAll(rands: seq<nat>)
      requires Valid() && |rands| == arr.size
      requires forall i :: 0 <= i < |Elements()| ==> PrefixAt(Elements()[i].odds, 5) != 0
      modifies arr.Repr
      ensures Valid() && arr.Repr == old(arr.Repr) && |Elements()| == |old(Elements())|
      ensures forall i :: 0 <= i < |Elements()| ==> Rolled(Elements()[i], old(Elements())[i], rands[i])
    {
      ghost var before := Elements();
      var it := arr.Begin();
      while it.NotEqual(arr.End())
        invariant Valid() && arr.Repr == old(arr.Repr) && arr.size == |before|
        invariant 0 <= it.pos <= |before|
        invariant forall k :: 0 <= k < |before| ==> PrefixAt(before[k].odds, 5) != 0
        invariant forall k :: 0 <= k < it.pos ==> Rolled(Elements()[k], before[k], rands[k])
        invariant forall k :: it.pos <= k < |before| ==> Elements()[k] == before[k]
        decreases |before| - it.pos
      {
        ghost var now := Elements();
        var face := RollAt(it, rands[it.pos]);
        RollStep(now, Elements(), before, rands, it.pos);
        it := it.Next();
      }
    }

    /** The lambda of operator()(): to_change_value on the die at `it`. */
    method RollAt(it: Iterator, rand: nat) returns (face: NumPoints)
      requires Valid() && 0 <= it.pos < |Elements()| && PrefixAt(Elements()[it.pos].odds, 5) != 0
      modifies arr.Repr
      ensures Valid() && arr.Repr == old(arr.Repr)
      ensures Elements() == old(Elements())[it.pos := old(Elements())[it.pos].(value := face)]
      ensures Rolled(Elements()[it.pos], old(Elements())[it.pos], rand)
    {
      var d := arr.Load(it);
      face := RandomOdds(d.odds, rand);
      arr.Store(it, d.(value := face));
    }

    /** operator()(index): out_of_range from index size on; otherwise that die is rolled
        and its new face returned. */
    method Roll(index: nat, rand: nat) returns (r: Result<NumPoints>)
      requires Valid()
      requires index < |Elements()| ==> PrefixAt(Elements()[index].odds, 5) != 0
      modifies arr.Repr
      ensures Valid() && arr.Repr == old(arr.Repr)
      ensures r.Err? <==> index >= |old(Elements())|
      ensures r.Err? ==> r.error == OutOfRange && Elements() == old(Elements())
      ensures r.Ok? ==> 1 <= r.value <= 6
      ensures r.Ok? ==> Elements() == old(Elements())[index := old(Elements())[index].(value := r.value)]
      ensures r.Ok? && Total(old(Elements())[index].odds) < ChanceModulus ==>
                r.value == Pick(old(Elements())[index].odds, rand)
    {
      if index >= arr.GetSize() {
        return Err(OutOfRange);
      }
      var d := arr.Get(index).value;
      var face := RandomOdds(d.odds, rand);
      var stored := arr.SetAt(index, d.(value := face));
      r := Ok(face);
    }

    /** operator+=: push_back of a copy of the die. */
    method PlusAssign(d: OneDice)
      requires Valid() && d.Valid() && arr.capacity > 0
      modifies arr.Repr
      ensures Valid() && fresh(arr.Repr - old(arr.Repr))
      ensures Elements() == old(Elements()) + [old(d.State())]
    {
      arr.PushBack(d.State());
    }

    /** operator-=: invalid_argument for a value outside one to six; otherwise a walk
        from begin to end that erases each die showing the value and steps back, so the
        next die is looked at too. */
    method MinusAssign(v: NumPoints) returns (r: Outcome)
      requires Valid()
      modifies arr.Repr
      ensures Valid() && arr.Repr == old(arr.Repr) && arr.capacity == old(arr.capacity)
      ensures r == if CheckNumPoints(v) then Pass else Fail(InvalidArgument)
      ensures r.Fail? ==> Elements() == old(Elements())
      ensures r.Pass? ==> Elements() == Without(old(Elements()), v)
    {
      if !CheckNumPoints(v) {
        return Fail(InvalidArgument);
      }
      ghost var before := arr.Elements();
      ghost var j := 0;
      var iter := arr.Begin();
      while iter.NotEqual(arr.End())
        invariant arr.Valid() && arr.Repr == old(arr.Repr) && arr.capacity == old(arr.capacity)
        invariant 0 <= j <= |before| && iter.pos == |Without(before[..j], v)|
        invariant arr.Elements() == Without(before[..j], v) + before[j..]
        decreases arr.size - iter.pos
      {
        WalkStep(before, j, v, arr.Elements());
        iter := EraseIfShows(iter, v);
        j := j + 1;
      }
      assert before[j..] == [];
      assert before[..j] == before;
      assert arr.Elements() == Without(before, v) + [];
      r := Pass;
    }

    /** One step of the walk of operator-=: the die at `iter` is erased and the walk
        stays put when it shows `v`; otherwise the walk moves on. */
    method EraseIfShows(iter: Iterator, v: NumPoints) returns (next: Iterator)
      requires Valid() && 0 <= iter.pos < |Elements()|
      modifies arr.Repr
      ensures Valid() && arr.Repr == old(arr.Repr) && arr.capacity == old(arr.capacity)
      ensures old(Elements())[iter.pos].value == v ==>
                next == iter && Elements() == old(Elements())[..iter.pos] + old(Elements())[iter.pos + 1..]
      ensures old(Elements())[iter.pos].value != v ==>
                next == iter.Next() && Elements() == old(Elements())
    {
      next := iter;
      if arr.Load(iter).value == v {
        var erased := arr.Erase(iter);
        next := next.Prev();
      }
      next := next.Next();
    }

    /** operator[]: out_of_range from index size on; otherwise the die there. */
    function At(index: nat): (r: Result<Die>)
      reads this, arr, arr.Repr
      requires Valid()
      ensures r.Ok? <==> index < |Elements()|
      ensures r.Ok? ==> r.value == Elements()[index]
      ensures r.Err? ==> r.error == OutOfRange
    {
      arr.Get(index)
    }

    /** operator<< as the text it writes; with no dice the source walks an inverted
        range, so there must be at least one. */
    function Text(): (s: seq<char>)
      reads this, arr, arr.Repr
      requires Valid() && |Elements()| >= 1
      ensures s == Braced(AsNatValues(Elements()))
      ensures ReadBraced(s, |Elements()|) == Ok((AsNatValues(Elements()), []))
    {
      var vs := AsNatValues(arr.Elements());
      DiceTextRoundTrip(vs, []);
      assert DiceText(vs) + [] == DiceText(vs);
      DiceText(vs)
    }
  }
}
