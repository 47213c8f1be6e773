/** AsciiArt: a picture held as a Vector of rows.  In the C++ class each row is a
    String; here a row is the text that String holds (its characters before the
    terminator), which is what every operation on rows reads or writes: `get_length`
    is its length, `+=` on two well-formed strings appends texts (Strings.AppendTerminated),
    and writing a String to a stream writes its text. */
module AsciiArts {
  import opened Wrappers
  import opened VectorIterators
  import opened Vectors
  import opened Texts

  /** check_line: the row has the expected length. */
  predicate CheckLine(line: seq<char>, len: nat): (r: bool)
    ensures r <==> |line| == len
  {
    |line| == len
  }

  /** std::any_of over the rows with check_line bound to `len`. */
  function AnyLine(rows: seq<seq<char>>, len: nat): (r: bool)
    ensures r <==> exists i :: 0 <= i < |rows| && CheckLine(rows[i], len)
  {
    if rows == [] then false
    else if CheckLine(rows[0], len) then true
    else
      var r := AnyLine(rows[1..], len);
      assert forall i :: 1 <= i < |rows| ==> rows[i] == rows[1..][i - 1];
      assert r ==> exists i :: 0 <= i < |rows[1..]| && CheckLine(rows[1..][i], len);
      r
  }

  /** check_Symbols: rejects an empty art, then asks whether ANY row is as long as the
      first one — which the first row always is, so every non-empty art passes. */
  function CheckSymbols(rows: seq<seq<char>>): (r: bool)
    ensures r <==> rows != []
  {
    if |rows| == 0 then false
    else
      assert CheckLine(rows[0], |rows[0]|);
      AnyLine(rows, |rows[0]|)
  }

  /** Every row is as long as the first one. */
  predicate Rectangular(rows: seq<seq<char>>)
  {
    forall i :: 0 <= i < |rows| ==> |rows[i]| == |rows[0]|
  }

  /** std::all_of over the rows with check_line bound to `len`. */
  function AllLines(rows: seq<seq<char>>, len: nat): (r: bool)
    ensures r <==> forall i :: 0 <= i < |rows| ==> CheckLine(rows[i], len)
  {
    if rows == [] then true
    else
      var r := AllLines(rows[1..], len);
      assert forall i :: 1 <= i < |rows| ==> rows[i] == rows[1..][i - 1];
      CheckLine(rows[0], len) && r
  }

  /** The check the documentation of check_Symbols describes: a non-empty art whose
      rows all have the same length. */
  function CheckSymbolsAll(rows: seq<seq<char>>): (r: bool)
    ensures r <==> rows != [] && Rectangular(rows)
  {
    |rows| != 0 && AllLines(rows, |rows[0]|)
  }

  /** A ragged art that check_Symbols accepts and the documented check rejects. */
  lemma CheckSymbolsAcceptsRagged()
    ensures CheckSymbols(["ab", "c"]) && !CheckSymbolsAll(["ab", "c"])
  {
    var rows := ["ab", "c"];
    assert |rows[1]| != |rows[0]|;
  }

  /** Each row followed by std::endl. */
  function EndLines(rows: seq<seq<char>>): seq<char>
  {
    if rows == [] then [] else rows[0] + "\n" + EndLines(rows[1..])
  }

  lemma {:induction false} EndLinesJoin(rows: seq<seq<char>>)
    requires |rows| >= 1
    ensures EndLines(rows[..|rows| - 1]) + rows[|rows| - 1] == JoinLines(rows)
    decreases |rows|
  {
    var n := |rows|;
    if n == 1 {
      assert rows[..0] == [];
    } else {
      var rest := rows[1..];
      assert rows[..n - 1][0] == rows[0];
      assert rows[..n - 1][1..] == rest[..|rest| - 1];
      EndLinesJoin(rest);
      assert rest[|rest| - 1] == rows[n - 1];
    }
  }

  /** operator<<: every row but the last followed by a newline, then the last row; an
      empty art writes nothing.  That is the rows joined by '\n'. */
  function Render(rows: seq<seq<char>>): (r: seq<char>)
    ensures r == JoinLines(rows)
  {
    if |rows| == 0 then []
    else
      EndLinesJoin(rows);
      EndLines(rows[..|rows| - 1]) + rows[|rows| - 1]
  }

  /** The written picture splits back into its rows at the newlines. */
  lemma RenderRoundTrip(rows: seq<seq<char>>)
    requires |rows| >= 1
    requires forall k :: 0 <= k < |rows| ==> '\n' !in rows[k]
    ensures SplitLines(Render(rows)) == rows
  {
    SplitJoinLines(rows);
  }

  /** The rows of operator+: each row of the left art followed by the same row of the
      right art. */
  function Beside(left: seq<seq<char>>, right: seq<seq<char>>): (rows: seq<seq<char>>)
    requires |left| == |right|
    ensures |rows| == |left|
    ensures forall i :: 0 <= i < |rows| ==> rows[i] == left[i] + right[i]
  {
    seq(|left|, i requires 0 <= i < |left| => left[i] + right[i])
  }

  /** Placing two rectangular arts of one height side by side gives a rectangular art
      as wide as both together. */
  lemma BesideRectangular(left: seq<seq<char>>, right: seq<seq<char>>)
    requires |left| == |right| >= 1 && Rectangular(left) && Rectangular(right)
    ensures Rectangular(Beside(left, right))
    ensures |Beside(left, right)[0]| == |left[0]| + |right[0]|
  {
    var rows := Beside(left, right);
    forall i | 0 <= i < |rows|
      ensures |rows[i]| == |rows[0]|
    {
      assert |rows[i]| == |left[i]| + |right[i]|;
    }
  }

  class AsciiArt {
    const art: Vector<seq<char>>

    /** The vector invariant, and room for at least one row so that push_back can grow
        the buffer by doubling. */
    ghost predicate Valid()
      reads this, art, art.Repr
    {
      art.Valid() && art.capacity > 0
    }

    function Rows(): (rows: seq<seq<char>>)
      reads this, art, art.Repr
      requires Valid()
      ensures |rows| == art.size
    {
      art.Elements()
    }

    /** AsciiArt(): an empty art. */
    constructor ()
      ensures Valid() && fresh(art.Repr) && Rows() == []
    {
      art := new Vector();
    }

    /** AsciiArt(const Symbols&): an empty art, then set_art, whose invalid_argument
        the constructor passes on. */
    static method FromSymbols(symbols: Vector<seq<char>>) returns (r: Result<AsciiArt>)
      requires symbols.Valid()
      ensures symbols.Elements() == old(symbols.Elements())
      ensures r.Err? <==> !CheckSymbols(symbols.Elements())
      ensures r.Err? ==> r.error == InvalidArgument
      ensures r.Ok? ==> r.value.Valid() && fresh(r.value.art.Repr) && r.value.Rows() == symbols.Elements()
    {
      var a := new AsciiArt();
      var o := a.SetArt(symbols);
      if o.Fail? {
        return Err(InvalidArgument);
      }
      r := Ok(a);
    }

    /** set_art: invalid_argument unless check_Symbols accepts the rows, otherwise the
        vector's copy assignment. */
    method SetArt(symbols: Vector<seq<char>>) returns (r: Outcome)
      requires Valid() && symbols.Valid()
      requires symbols != art ==> art.Repr !! symbols.Repr
      modifies art.Repr
      ensures Valid() && fresh(art.Repr - old(art.Repr))
      ensures r == if CheckSymbols(old(symbols.Elements())) then Pass else Fail(InvalidArgument)
      ensures r.Fail? ==> Rows() == old(Rows()) && art.Repr == old(art.Repr)
      ensures r.Pass? ==> Rows() == old(symbols.Elements())
      ensures symbols != art ==> symbols.Elements() == old(symbols.Elements())
    {
      if !CheckSymbols(symbols.Elements()) {
        return Fail(InvalidArgument);
      }
      art.Assign(symbols);
      r := Pass;
    }

    /** add_line: once the art has a row, a line of another length is rejected with
        invalid_argument; otherwise the line becomes the new last row. */
    method AddLine(line: seq<char>) returns (r: Outcome)
      requires Valid() && '\0' !in line
      modifies art.Repr
      ensures Valid() && fresh(art.Repr - old(art.Repr))
      ensures r == if |old(Rows())| > 0 && |line| != |old(Rows())[0]| then Fail(InvalidArgument) else Pass
      ensures r.Fail? ==> Rows() == old(Rows())
      ensures r.Pass? ==> Rows() == old(Rows()) + [line]
      ensures old(Rectangular(Rows())) ==> Rectangular(Rows())
    {
      if art.GetSize() > 0 {
        var len := |art.Get(0).value|;
        if !CheckLine(line, len) {
          return Fail(InvalidArgument);
        }
      }
      art.PushBack(line);
      r := Pass;
    }

    /** operator+: invalid_argument when the heights differ; the copy of the left art
        goes through the constructor from rows, so an empty left art is rejected too.
        Then every row of the copy gets the same row of the right art appended. */
    method Plus(right: AsciiArt) returns (r: Result<AsciiArt>)
      requires Valid() && right.Valid()
      ensures Rows() == old(Rows()) && right.Rows() == old(right.Rows())
      ensures r.Err? <==> |Rows()| != |right.Rows()| || |Rows()| == 0
      ensures r.Err? ==> r.error == InvalidArgument
      ensures r.Ok? ==> r.value.Valid() && fresh(r.value.art.Repr)
      ensures r.Ok? ==> r.value.Rows() == Beside(Rows(), right.Rows())
    {
      if art.GetSize() != right.art.GetSize() {
        return Err(InvalidArgument);
      }
      var made := FromSymbols(art);
      if made.Err? {
        return Err(InvalidArgument);
      }
      var result := made.value;
      ghost var left := Rows();
      ghost var other := right.Rows();
      var iter := right.art.Begin();
      var line := result.art.Begin();
      while line.NotEqual(result.art.End())
        invariant result.Valid() && fresh(result.art.Repr) && result.art.size == |left|
        invariant 0 <= line.pos <= |left| && iter.pos == line.pos
        invariant forall i :: 0 <= i < line.pos ==> result.Rows()[i] == left[i] + other[i]
        invariant forall i :: line.pos <= i < |left| ==> result.Rows()[i] == left[i]
        decreases |left| - line.pos
      {
        var row := result.art.Load(line);
        result.art.Store(line, row + right.art.Load(iter));
        iter := iter.Next();
        line := line.Next();
      }
      assert result.Rows() == Beside(left, other);
      r := Ok(result);
    }

    /** operator<< as the text it writes. */
    function Text(): (s: seq<char>)
      reads this, art, art.Repr
      requires Valid()
      ensures s == JoinLines(Rows())
    {
      Render(art.Elements())
    }
  }
}
