/** String: a Vector<char> whose live elements are meant to end with the '\0'
    terminator, so that `size` counts the terminator and the length is `size - 1`.
    The C++ class derives from Vector<char>; here the vector part is the constant
    field `base`, and the methods of the derived class work on it directly. */
module Strings {
  import opened Wrappers
  import opened VectorIterators
  import opened Vectors

  /** The largest size_t, the value `size - 1` wraps to when `size` is 0. */
  const SizeMax: nat := 0xFFFF_FFFF_FFFF_FFFF

  /** The text a C string reader (strlen, operator<< on a char pointer) sees in `s`:
      everything before the first '\0'. */
  function CStr(s: seq<char>): (r: seq<char>)
    ensures '\0' !in r && r <= s
    ensures |r| < |s| ==> s[|r|] == '\0'
  {
    if s == [] || s[0] == '\0' then [] else [s[0]] + CStr(s[1..])
  }

  /** `s` is a well-formed buffer: exactly one '\0', at the end. */
  predicate Terminated(s: seq<char>)
  {
    |s| >= 1 && s[|s| - 1] == '\0' && '\0' !in s[..|s| - 1]
  }

  /** The text of a well-formed buffer: everything but the terminator. */
  function Text(s: seq<char>): (r: seq<char>)
    requires Terminated(s)
    ensures r + ['\0'] == s && '\0' !in r
  {
    s[..|s| - 1]
  }

  /** A C string reader stops at the first '\0', whatever follows it. */
  lemma CStrStopsAtNul(t: seq<char>, s: seq<char>)
    requires '\0' !in t && |t| < |s| && s[..|t|] == t && s[|t|] == '\0'
    ensures CStr(s) == t
  {
    var r := CStr(s);
    assert forall i :: 0 <= i < |t| ==> s[i] == t[i] && t[i] in t;
    assert forall i :: 0 <= i < |r| ==> r[i] == s[i] && r[i] in r;
    assert |r| == |t|;
    assert r == s[..|r|];
  }

  /** The reader sees exactly the text of a well-formed buffer. */
  lemma CStrOfTerminated(s: seq<char>)
    requires Terminated(s)
    ensures CStr(s) == Text(s)
  {
    CStrStopsAtNul(Text(s), s);
  }

  /** What `+=` builds from two well-formed buffers: the first one without its
      terminator followed by the second one is well-formed and holds both texts. */
  lemma AppendTerminated(a: seq<char>, b: seq<char>)
    requires Terminated(a) && Terminated(b)
    ensures Terminated(a[..|a| - 1] + b)
    ensures Text(a[..|a| - 1] + b) == Text(a) + Text(b)
  {
    var c := a[..|a| - 1] + b;
    assert c[..|c| - 1] == Text(a) + Text(b);
    assert '\0' !in Text(a) + Text(b) by {
      forall i | 0 <= i < |Text(a) + Text(b)|
        ensures (Text(a) + Text(b))[i] != '\0'
      {
        if i < |Text(a)| {
          assert (Text(a) + Text(b))[i] == Text(a)[i];
          assert Text(a)[i] in Text(a);
        } else {
          assert (Text(a) + Text(b))[i] == Text(b)[i - |Text(a)|];
          assert Text(b)[i - |Text(a)|] in Text(b);
        }
      }
    }
  }

  /** The slots operator+ leaves for `a + b`: `b` sits before the last of the
      `|a| + |b| - 1` slots of the resized copy of `a`, and the slots past `a` that
      the resize added are unspecified. */
  predicate PlusShape(a: seq<char>, b: seq<char>, e: seq<char>)
  {
    && |b| >= 1 && |a| + |b| >= 2
    && |e| == |a| + 2 * |b| - 1
    && e[|a| + |b| - 2..|a| + 2 * |b| - 2] == b
    && (|b| >= 2 ==> e[..|a|] == a)
    && (|b| == 1 ==> e == a[..|a| - 1] + b + a[|a| - 1..])
  }

  /** The slots of the resized copy `grown` followed by the insert before its last
      slot have the shape of operator+. */
  lemma PlusLayout(a: seq<char>, b: seq<char>, grown: seq<char>, e: seq<char>)
    requires |b| >= 1 && |a| + |b| >= 2
    requires |grown| == |a| + |b| - 1 && grown[..|a|] == a
    requires e == grown[..|grown| - 1] + b + grown[|grown| - 1..]
    ensures PlusShape(a, b, e)
  {
    var s := |grown|;
    assert e[s - 1..s - 1 + |b|] == b;
    if |b| >= 2 {
      assert e[..|a|] == grown[..|a|];
    } else {
      assert grown == a;
    }
  }

  /** Whatever its right operand, operator+ on well-formed strings reads back as the
      left operand's text alone: the left terminator is still the first '\0'. */
  lemma PlusShowsLeftText(a: seq<char>, b: seq<char>, e: seq<char>)
    requires PlusShape(a, b, e) && Terminated(a) && Terminated(b)
    ensures '\0' in e && CStr(e) == Text(a)
  {
    var t := Text(a);
    if |b| >= 2 {
      assert e[..|a|] == a;
      assert e[|t|] == a[|t|];
    } else {
      assert e[|t|] == b[0];
    }
    assert e[..|t|] == t;
    CStrStopsAtNul(t, e);
  }

  /** The sample from the repository's string tests: "Hello" + ", wrold!" reads back
      as "Hello", not as the concatenation. */
  lemma PlusHelloWorld(e: seq<char>)
    requires PlusShape("Hello\0", ", wrold!\0", e)
    ensures '\0' in e && CStr(e) == "Hello" && CStr(e) != "Hello, wrold!"
  {
    assert Text("Hello\0") == "Hello";
    PlusShowsLeftText("Hello\0", ", wrold!\0", e);
  }

  class String {
    const base: Vector<char>

    ghost predicate Valid()
      reads this, base, base.Repr
    {
      base.Valid()
    }

    /** The buffer's live elements, terminator included. */
    function Elements(): (s: seq<char>)
      reads this, base, base.Repr
      requires Valid()
      ensures |s| == base.size
    {
      base.Elements()
    }

    /** String(): the one-slot vector of Vector() holding just the terminator. */
    constructor ()
      ensures Valid() && fresh(base.Repr)
      ensures Elements() == ['\0'] && Terminated(Elements()) && Text(Elements()) == []
      ensures base.capacity == 1
    {
      base := new Vector();
      new;
      base.data[0] := '\0';
      base.size := 1;
      assert Elements() == ['\0'];
    }

    /** String(const char*): Vector() followed by the assignment from the C string
        whose characters before the terminator are `s`. */
    constructor FromCString(s: seq<char>)
      requires '\0' !in s
      ensures Valid() && fresh(base.Repr)
      ensures Elements() == s + ['\0'] && Terminated(Elements()) && Text(Elements()) == s
      ensures base.capacity == |s| + 1
    {
      base := new Vector();
      new;
      var _ := AssignCString(s);
    }

    /** The copy constructor: the Vector<char> copy constructor. */
    constructor Copy(other: String)
      requires other.Valid()
      ensures Valid() && fresh(base.Repr) && base.Repr !! other.base.Repr
      ensures Elements() == other.Elements() && base.capacity == other.base.capacity
    {
      base := new Vector.CopyOf(other.base);
    }

    /** The move constructor: the Vector<char> move constructor, which leaves the
        other string with no buffer and size 0. */
    constructor Move(other: String)
      requires other.Valid()
      modifies other.base
      ensures Valid() && Elements() == old(other.Elements())
      ensures base.capacity == old(other.base.capacity) && base.data == old(other.base.data)
      ensures other.Valid() && other.base.data == null && other.Elements() == []
    {
      base := new Vector.MoveFrom(other.base);
    }

    /** resize(new_size): Vector<char>::resize, which throws runtime_error below the
        size, then the size becomes `n`; new slots past the old size are unspecified. */
    method Resize(n: nat) returns (r: Outcome)
      requires Valid()
      modifies base.Repr
      ensures Valid() && fresh(base.Repr - old(base.Repr))
      ensures r == if n < old(base.size) then Fail(RuntimeError) else Pass
      ensures r.Fail? ==> Elements() == old(Elements()) && base.capacity == old(base.capacity)
      ensures r.Pass? ==> base.size == n && base.capacity == n && base.data != null
      ensures r.Pass? ==> Elements()[..old(base.size)] == old(Elements())
    {
      r := base.Resize(n);
      if r.Pass? {
        base.size := n;
      }
    }

    /** get_length(): `size - 1` in size_t arithmetic. */
    function Length(): (r: nat)
      reads this, base, base.Repr
      requires Valid()
      ensures |Elements()| >= 1 ==> r + 1 == |Elements()|
      ensures |Elements()| == 0 ==> r == SizeMax
      ensures Terminated(Elements()) ==> r == |Text(Elements())|
    {
      if base.size == 0 then SizeMax else base.size - 1
    }

    /** get_cstring() as its readers see it: the characters before the first '\0' of
        the buffer, which must hold one among its live elements. */
    function CString(): (r: seq<char>)
      reads this, base, base.Repr
      requires Valid() && '\0' in Elements()
      ensures '\0' !in r && |r| < |Elements()| && Elements()[..|r|] == r && Elements()[|r|] == '\0'
      ensures Terminated(Elements()) ==> r == Text(Elements())
    {
      if Terminated(Elements()) then CStrOfTerminated(Elements()); CStr(Elements())
      else CStr(Elements())
    }

    /** operator+: copies this string, resizes the copy to `size + other.size - 1` and
        then inserts all of `other` before the copy's last slot.  The resize already
        sets the size, so the insert lands past slots that were never written and the
        result holds `size + 2 * other.size - 1` slots; a reader of the C string sees
        only this string's text. */
    method Plus(other: String) returns (r: Result<String>)
      requires Valid() && other.Valid()
      requires base.size + other.base.size >= 1
      ensures Elements() == old(Elements()) && other.Elements() == old(other.Elements())
      ensures r.Err? <==> other.base.size == 0 || base.size + other.base.size == 1
      ensures r.Err? ==> r.error == if other.base.size == 0 then RuntimeError else InvalidArgument
      ensures r.Ok? ==> r.value.Valid() && fresh(r.value.base.Repr)
      ensures r.Ok? ==> PlusShape(Elements(), other.Elements(), r.value.Elements())
    {
      var a := Elements();
      var b := other.Elements();
      var res := new String.Copy(this);
      var o := res.Resize(res.base.size + other.base.size - 1);
      if o.Fail? {
        return Err(RuntimeError);
      }
      assert res.Elements()[..|a|] == a;
      ghost var grown := res.Elements();
      var ins := InsertBeforeLast(res, other);
      if ins.Fail? {
        return Err(InvalidArgument);
      }
      PlusLayout(a, b, grown, res.Elements());
      r := Ok(res);
    }

    /** The insert step of operator+: `insert(end() - 1, other.begin(), other.end())` on
        `res`, which the range check rejects when `res` is empty. */
    static method InsertBeforeLast(res: String, other: String) returns (r: Outcome)
      requires res.Valid() && other.Valid() && res.base.Repr !! other.base.Repr
      requires res.base.capacity == res.base.size
      modifies res.base.Repr
      ensures res.Valid() && fresh(res.base.Repr - old(res.base.Repr))
      ensures other.Elements() == old(other.Elements())
      ensures r == if old(res.base.size) == 0 then Fail(InvalidArgument) else Pass
      ensures r.Pass? ==> res.Elements() == old(res.Elements())[..old(res.base.size) - 1]
                                          + other.Elements()
                                          + old(res.Elements())[old(res.base.size) - 1..]
    {
      ghost var grown := res.Elements();
      ghost var b := other.Elements();
      var at := res.base.End().Minus(1);
      var ins := res.base.InsertRange(at, other.base, other.base.Begin(), other.base.End());
      if ins.Err? {
        return Fail(InvalidArgument);
      }
      assert b[0..|b|] == b;
      r := Pass;
    }

    /** The concatenation operator+ is evidently meant to be: a copy of this string
        followed by `+=`, so that the result holds both texts. */
    method Concat(other: String) returns (r: Result<String>)
      requires Valid() && other.Valid() && base.size >= 1
      ensures Elements() == old(Elements()) && other.Elements() == old(other.Elements())
      ensures r.Err? <==> other.base.size == 0
      ensures r.Err? ==> r.error == RuntimeError
      ensures r.Ok? ==> r.value.Valid() && fresh(r.value.base.Repr)
      ensures r.Ok? ==> r.value.Elements() == Elements()[..|Elements()| - 1] + other.Elements()
      ensures r.Ok? && Terminated(Elements()) && Terminated(other.Elements()) ==>
                Terminated(r.value.Elements()) && Text(r.value.Elements()) == Text(Elements()) + Text(other.Elements())
    {
      var res := new String.Copy(this);
      var o := res.PlusAssign(other);
      if o.Fail? {
        return Err(RuntimeError);
      }
      r := Ok(res);
    }

    /** operator+=: resizes to `size + other.size - 1` (runtime_error when `other` is
        empty) and copies all of `other` over this string's terminator. */
    method PlusAssign(other: String) returns (r: Outcome)
      requires Valid() && other.Valid() && base.Repr !! other.base.Repr
      requires base.size >= 1
      modifies base.Repr
      ensures Valid() && fresh(base.Repr - old(base.Repr)) && other.Elements() == old(other.Elements())
      ensures r == if other.base.size == 0 then Fail(RuntimeError) else Pass
      ensures r.Fail? ==> Elements() == old(Elements())
      ensures r.Pass? ==> Elements() == old(Elements())[..old(base.size) - 1] + other.Elements()
      ensures r.Pass? && old(Terminated(Elements())) && Terminated(other.Elements()) ==>
                Terminated(Elements()) && Text(Elements()) == old(Text(Elements())) + Text(other.Elements())
    {
      var oldLength := Length();
      ghost var a := Elements();
      ghost var b := other.Elements();
      r := Resize(base.size + other.base.size - 1);
      if r.Fail? {
        return;
      }
      ghost var grown := base.data[..];
      assert grown[..oldLength] == a[..oldLength];
      CopyBetween(other.base.data, 0, base.data, oldLength, other.base.size);
      assert other.base.data[0..other.base.size] == b;
      assert Elements() == grown[..oldLength] + b;
      if Terminated(a) && Terminated(other.Elements()) {
        AppendTerminated(a, other.Elements());
      }
    }

    /** operator=(const String&), declared noexcept: resizes to the other's size and
        copies its elements.  A resize below the current size would throw out of a
        noexcept function and terminate the program, so callers must not shrink. */
    method Assign(other: String)
      requires Valid() && other.Valid()
      requires other.base != base ==> base.Repr !! other.base.Repr
      requires other.base.size >= base.size
      modifies base.Repr
      ensures Valid() && fresh(base.Repr - old(base.Repr))
      ensures Elements() == old(other.Elements())
      ensures base.size == old(other.base.size) && base.capacity == old(other.base.size)
    {
      ghost var b := other.Elements();
      var _ := Resize(other.base.size);
      if other.base != base && other.base.data != null {
        CopyBetween(other.base.data, 0, base.data, 0, other.base.size);
        assert Elements() == b;
      }
    }

    /** operator=(const char*): resizes to `strlen + 1` (runtime_error when that is
        below the current size) and copies the characters and the terminator. */
    method AssignCString(s: seq<char>) returns (r: Outcome)
      requires Valid() && '\0' !in s
      modifies base.Repr
      ensures Valid() && fresh(base.Repr - old(base.Repr))
      ensures r == if |s| + 1 < old(base.size) then Fail(RuntimeError) else Pass
      ensures r.Fail? ==> Elements() == old(Elements())
      ensures r.Pass? ==> Elements() == s + ['\0'] && base.capacity == |s| + 1
      ensures r.Pass? ==> Terminated(Elements()) && Text(Elements()) == s
    {
      r := Resize(|s| + 1);
      if r.Fail? {
        return;
      }
      ghost var frame := base.Repr;
      var buffer := base.data;
      var i := 0;
      while i < |s|
        invariant 0 <= i <= |s|
        invariant base.data == buffer && base.Repr == frame && base.size == |s| + 1 && base.capacity == |s| + 1
        invariant Valid() && fresh(base.Repr - old(base.Repr))
        invariant forall k :: 0 <= k < i ==> buffer[k] == s[k]
      {
        base.data[i] := s[i];
        i := i + 1;
      }
      base.data[|s|] := '\0';
      assert Elements() == s + ['\0'];
    }
  }
}
