# OOP_Lab2 dice library in Dafny

This project is a Dafny model of the C++ library in OOP_Lab2. The library simulates a
set of weighted dice and draws them as ASCII pictures. It is built in layers:

- **`Vector<T>` and its iterator.** A growable array with an explicit `size` and
  `capacity`. It has push, pop, insert and erase operations, copy and move semantics,
  and a pointer-like iterator.
- **`String`.** A `Vector<char>` holding a NUL-terminated C string.
- **`AsciiArt`.** A picture: a vector of `String` rows. `add_line` keeps the rows equally
  long; `set_art` does not check this (see Findings).
  Two pictures of the same height can be placed side by side with `+`.
- **`Odds`, `OneDice` and `Dice`.**
  - `Odds` holds the six unsigned 32-bit weights of one die.
  - `OneDice` is one die: the face it shows and its odds. It draws a new face from the
    weights with the library's `random_odds`.
  - `Dice` is a vector of dice. It can roll them, sum them, remove the dice that show a
    given face, and draw all of them side by side.

Each C++ class whose methods update fields in place is a Dafny `class`, and its methods
`modify` those fields. The buffers are `array`s, and a ghost `Repr` set frames each
vector. C++ inheritance becomes composition (`String.base`, `AsciiArt.art`,
`Dice.arr`). Pure helpers are Dafny functions, each with lemmas that relate it to an
independent definition or to its inverse. A thrown exception becomes an `Err`
(`Result`) or a `Fail` (`Outcome`) carrying the exception's kind. `rand()` is an
explicit parameter.

Dafny modules, by file:

| file | module |
|---|---|
| `wrappers.dfy` | `Wrappers`: error kinds, `Result`, `Outcome` |
| `iterator.dfy` | `VectorIterators` |
| `vector.dfy` | `Vectors` |
| `string.dfy` | `Strings` |
| `text.dfy` | `Texts`: numerals and line joining, as the output operators format them |
| `ascii_art.dfy` | `AsciiArts` |
| `odds.dfy` | `OddsTable` |
| `one_dice.dfy` | `OneDices` |
| `dice.dfy` | `DiceSet` |

A `OneDice` stored in a `Dice` is modelled as the value `Die(value, odds)`. Copying a
die copies both of its parts, so no die in the vector shares state with anything else.

## Model

| member | source | states |
|---|---|---|
| VectorIterators.Iterator.Plus | src/libs/vector/iterator/iterator.cpp:39-42 | `it + n` lies exactly `n` slots after `it`. |
| VectorIterators.Iterator.Minus | src/libs/vector/iterator/iterator.cpp:52-55 | `it - n` is the iterator that `+ n` takes back to `it`. |
| VectorIterators.Iterator.Equal | src/libs/vector/iterator/iterator.cpp:95-98 | `==` holds exactly when both iterators are at the same slot. |
| VectorIterators.Iterator.NotEqual | src/libs/vector/iterator/iterator.cpp:82-85 | `!=` holds exactly when the iterators are at different slots. |
| VectorIterators.Iterator.Less | src/libs/vector/iterator/iterator.cpp:121-124 | `a < b` holds exactly when `a` is at an earlier slot than `b`. |
| VectorIterators.Iterator.Greater | src/libs/vector/iterator/iterator.cpp:108-111 | `a > b` holds exactly when `b < a`. |
| VectorIterators.Iterator.Next | src/libs/vector/iterator/iterator.cpp:143-147 | `++` gives the same iterator as `+ 1`. |
| VectorIterators.Iterator.Prev | src/libs/vector/iterator/iterator.cpp:155-159 | `--` gives the iterator that `++` takes back to the original. |
| VectorIterators.Iterator.Diff | src/libs/vector/iterator/iterator.cpp:67-72 | The distance `it - other` is defined exactly when `it` is not before `other`, and then `other + distance == it`; otherwise invalid_argument. |
| VectorIterators.PlusDiffRoundTrip | src/libs/vector/iterator/iterator.cpp:39-72 | Adding `n` and then taking the distance gives back `n`, and `+ n` and `- n` undo each other. |
| VectorIterators.NextIsPlusOne | src/libs/vector/iterator/iterator.cpp:143-147 | `++` is the same as `+ 1` and moves the iterator exactly one slot. |
| VectorIterators.NextPrevInverse | src/libs/vector/iterator/iterator.cpp:143-159 | `++` and `--` undo each other. |
| VectorIterators.EqualIsNotNotEqual | src/libs/vector/iterator/iterator.cpp:82-98 | `==` is the negation of `!=`. |
| VectorIterators.LessGreaterConverse | src/libs/vector/iterator/iterator.cpp:108-124 | `a < b` exactly when `b > a`, and two iterators are equal exactly when neither is before the other. |
| Vectors.CopyDown | src/libs/vector/vector.cpp:119-123 | `std::copy` toward the front: the block lands at the destination and every slot outside it keeps its old content. |
| Vectors.CopyUp | src/libs/vector/vector.cpp:98-104 | `std::copy_backward`: the block lands so that it ends at the destination end, even when source and destination overlap. Every other slot is unchanged. |
| Vectors.CopyBetween | src/libs/vector/vector.cpp:163-175 | `std::copy` from another buffer: the destination holds the source range at the offset and keeps everything else. |
| Vectors.GrownCapacity | src/libs/vector/vector.cpp:169-170 | The capacity after repeated doubling is at least the old capacity and at least `size + dist`. It is either unchanged or an even number whose half was still too small. |
| Vectors.Doublings | src/libs/vector/vector.cpp:89-91 | The capacity after `k` growth steps `resize(capacity * 2)`; the steps never shrink it. |
| Vectors.ZeroCapacityNeverGrows | src/libs/vector/vector.cpp:169-170 | From capacity zero, no number of growth steps gives any room. |
| Vectors.GrownCapacityFromOne | src/libs/vector/vector.cpp:169-170 | The intended growth, doubling from at least one: it always reaches `size + dist`. |
| Vectors.PushCapacityFromOne | src/libs/vector/vector.cpp:89-91 | The intended single growth step of push_back: after it, a full buffer of any capacity has room for one more element. |
| Vectors.Vector.constructor | src/libs/vector/vector.cpp:16-20 | A new vector is empty and has a buffer of capacity one. |
| Vectors.Vector.WithCapacity | src/libs/vector/vector.cpp:26-29 | `Vector(n)` has size and capacity `n`; its slots are not initialised. |
| Vectors.Vector.Filled | src/libs/vector/vector.cpp:35-42 | `Vector(n, v)` holds `n` copies of `v` and has capacity `2n`. |
| Vectors.Vector.FromList | src/libs/vector/vector.cpp:48-54 | The initialiser-list constructor holds exactly the list, with capacity equal to its length. |
| Vectors.Vector.CopyOf | src/libs/vector/vector.cpp:60-63 | The copy constructor gives an independent vector with the same elements, size and capacity. |
| Vectors.Vector.MoveFrom | src/libs/vector/vector.cpp:69-72 | The move constructor takes over the other vector's buffer and contents and leaves it empty with no buffer. |
| Vectors.Vector.Begin | src/libs/vector/vector.cpp:339-342 | `begin()` points at slot 0. |
| Vectors.Vector.End | src/libs/vector/vector.cpp:350-353 | `end()` points one past the last element. |
| Vectors.Vector.IsEmpty | src/libs/vector/vector.cpp:243-246 | `is_empty()` holds exactly when the vector has no elements. |
| Vectors.Vector.GetSize | src/libs/vector/vector.cpp:254-257 | `get_size()` is the number of elements. |
| Vectors.Vector.Load | src/libs/vector/iterator/iterator.cpp:132-135 | Reading an element through an iterator at a live position gives that element. |
| Vectors.Vector.Store | src/libs/vector/vector.cpp:144-145 | Writing through an iterator (`*it = v`, with the `operator*` of iterator.cpp:132-135) changes only that slot. |
| Vectors.Vector.Get | src/libs/vector/vector.cpp:282-287 | `operator[]` gives the element at an index below size, and out_of_range otherwise. |
| Vectors.Vector.SetAt | src/libs/vector/vector.cpp:267-272 | Assigning through `operator[]` replaces exactly that element; at an index not below size it is out_of_range and nothing changes. |
| Vectors.Vector.Resize | src/libs/vector/vector.cpp:226-235 | `resize(n)` fails with runtime_error below the current size and changes nothing. Otherwise it gives a fresh buffer of capacity `n` that keeps the elements. |
| Vectors.Vector.PushBack | src/libs/vector/vector.cpp:87-92 | The value is appended, and the capacity doubles exactly when the buffer was full. |
| Vectors.Vector.PushFront | src/libs/vector/vector.cpp:98-104 | The value is written at the front and the old elements move up one slot. The size is not increased, so the old last element sits just past the end. |
| Vectors.Vector.PopBack | src/libs/vector/vector.cpp:110-113 | The last element is dropped; the buffer is untouched. |
| Vectors.Vector.PopFront | src/libs/vector/vector.cpp:119-123 | The first element is dropped and the rest keep their order. |
| Vectors.Vector.Insert | src/libs/vector/vector.cpp:136-148 | A position outside `[begin, end]` is invalid_argument and changes nothing. Otherwise the value is inserted at the position, which is returned. |
| Vectors.InsertArray | src/libs/vector/vector.cpp:143-145 | `copy_backward` by one slot, then the write at the position: the first `size + 1` slots are the old live elements with the value inserted at the position. |
| Vectors.Vector.ShiftIn | src/libs/vector/vector.cpp:143-146 | The tail shifts up one slot and the value fills the gap. |
| Vectors.Vector.InsertRange | src/libs/vector/vector.cpp:163-175 | A reversed range or a bad position is invalid_argument. Otherwise the source range is spliced in at the position, after doubling the capacity as often as needed, and the source is unchanged. |
| Vectors.Vector.GrowAndSplice | src/libs/vector/vector.cpp:169-173 | After the doubling loop, the elements are the old prefix, then the range, then the old suffix. |
| Vectors.Vector.GrowFor | src/libs/vector/vector.cpp:169-170 | The doubling loop keeps the elements and reaches `GrownCapacity`. |
| Vectors.SpliceArray | src/libs/vector/vector.cpp:171-172 | `copy_backward` by `dist` slots, then `copy` from the other buffer: the first `size + dist` slots are the old live elements with the range inserted at the position. |
| Vectors.Vector.SpliceIn | src/libs/vector/vector.cpp:171-173 | `copy_backward`, then `copy`, then the new size: the range is spliced in at the position. |
| Vectors.Vector.Erase | src/libs/vector/vector.cpp:187-194 | An iterator outside the vector is invalid_argument. Otherwise exactly the element at the position is removed and the position is returned. |
| Vectors.Vector.EraseRange | src/libs/vector/vector.cpp:208-216 | A reversed or out-of-bounds range is invalid_argument. Otherwise the elements of `[first, last)` are removed, the size drops by the range's length, and `first` is returned. |
| Vectors.Vector.Assign | src/libs/vector/vector.cpp:297-309 | Copy assignment gives an independent copy of the other vector's elements, size and capacity. Self-assignment changes nothing. |
| Vectors.Vector.MoveAssign | src/libs/vector/vector.cpp:319-331 | Move assignment takes over the other vector's buffer and leaves it empty with no buffer. Self-move changes nothing. |
| Strings.CStr | src/libs/string/string.cpp:88-91 | What a reader of `get_cstring()` sees: the longest NUL-free prefix, which stops at the first NUL. |
| Strings.Text | src/libs/string/string.cpp:26-29 | A well-formed string's text is everything before its single final NUL. |
| Strings.CStrStopsAtNul | src/libs/string/string.cpp:88-91 | A NUL-free prefix followed by a NUL is exactly what is read. |
| Strings.CStrOfTerminated | src/libs/string/string.cpp:134-137 | For a well-formed string, the C string read back is its text. |
| Strings.AppendTerminated | src/libs/string/string.cpp:117-123 | Dropping the left terminator and appending the right string gives a well-formed string whose text is the two texts joined. |
| Strings.PlusLayout | src/libs/string/string.cpp:101-107 | The layout `+` produces: the left string, the unwritten slots of the resize, the right string, one slot more. |
| Strings.PlusShowsLeftText | src/libs/string/string.cpp:101-107 | The C string read from a `+` result is the left operand's text only. |
| Strings.PlusHelloWorld | tests/string_tests.cpp:12-17 | `"Hello" + ", wrold!"` reads back as `"Hello"` and not as `"Hello, wrold!"`. |
| Strings.String.constructor | src/libs/string/string.cpp:14-18 | The empty string is a single NUL with capacity one. |
| Strings.String.FromCString | src/libs/string/string.cpp:26-29 | `String(const char*)` holds the characters and a NUL, and its text is the input. |
| Strings.String.Copy | src/libs/string/string.cpp:37-39 | The copy constructor gives an independent copy. |
| Strings.String.Move | src/libs/string/string.cpp:47-49 | The move constructor takes the other string's buffer and leaves it empty. |
| Strings.String.Resize | src/libs/string/string.cpp:65-69 | It fails with runtime_error below the current size. Otherwise the size becomes the new length and the old characters are kept as a prefix. |
| Strings.String.Length | src/libs/string/string.cpp:77-80 | `get_length()` is size minus one: the length of the text of a well-formed string, and SIZE_MAX for an empty buffer. |
| Strings.String.CString | src/libs/string/string.cpp:88-91 | The characters up to the first NUL. For a well-formed string this is its text. |
| Strings.String.Plus | src/libs/string/string.cpp:101-107 | `+` as written. It fails only when the right operand is empty (resize below size) or the growth leaves nothing to insert before. Its result has the layout of `PlusLayout`. Neither operand changes. |
| Strings.String.InsertBeforeLast | src/libs/string/string.cpp:105 | The right string is inserted before the last slot of the grown copy; with no slot this is invalid_argument. |
| Strings.String.Concat | src/libs/string/string.cpp:101-107 | The concatenation `+` is documented to be. Its text is the left text followed by the right text. |
| Strings.String.PlusAssign | src/libs/string/string.cpp:117-123 | `+=` overwrites the terminator with the right string. Its text becomes the two texts joined; an empty right operand is runtime_error. |
| Strings.String.Assign | src/libs/string/string.cpp:147-152 | Copy assignment gives the other string's characters, with capacity equal to their number. |
| Strings.String.AssignCString | src/libs/string/string.cpp:162-168 | The C string and a NUL, or runtime_error when it is shorter than the current size. |
| Texts.Digits | src/libs/dice/dice.cpp:279-281 | The decimal numeral `<<` writes: at least one digit, and no leading zero. |
| Texts.ValueOfDigits | src/libs/dice/dice.cpp:279-281 | The numeral denotes the number written. |
| Texts.ReadNatDigits | src/libs/dice/dice.cpp:279-281 | A written numeral followed by a non-digit reads back as the same number. |
| Texts.ReadJoinNats | src/libs/dice/oneDice/odds/odds.cpp:173-183 | Numbers written with a separator read back as the same list. |
| Texts.BracedRoundTrip | src/libs/dice/oneDice/odds/odds.cpp:173-183 | A braced list `{a, b, ...}` reads back as the same numbers, with the rest of the text untouched. |
| Texts.Expect | src/libs/dice/oneDice/oneDice.cpp:262-265 | A literal is stripped exactly when the text starts with it. |
| Texts.ReadNat | src/libs/dice/dice.cpp:279-281 | Reading a numeral fails exactly when no digit comes first, and it always consumes something. |
| Texts.SplitJoinLines | src/libs/asciiArt/asciiArt.cpp:107-116 | Splitting at newlines undoes joining rows that contain no newline. |
| AsciiArts.CheckLine | src/libs/asciiArt/asciiArt.cpp:21-26 | `check_line` holds exactly when the row has the given length. |
| AsciiArts.AnyLine | src/libs/asciiArt/asciiArt.cpp:40-42 | `std::any_of` with `check_line`: true exactly when some row has the given length. |
| AsciiArts.CheckSymbols | src/libs/asciiArt/asciiArt.cpp:36-43 | check_Symbols as written accepts exactly the non-empty arts. |
| AsciiArts.AllLines | src/libs/asciiArt/asciiArt.cpp:30-34 | `std::all_of` with `check_line`: true exactly when every row has the given length. |
| AsciiArts.CheckSymbolsAll | src/libs/asciiArt/asciiArt.cpp:30-34 | The documented check: accepts exactly the non-empty rectangular arts. |
| AsciiArts.CheckSymbolsAcceptsRagged | src/libs/asciiArt/asciiArt.cpp:36-43 | The ragged art `["ab", "c"]` passes check_Symbols and fails the documented check. |
| AsciiArts.EndLinesJoin | src/libs/asciiArt/asciiArt.cpp:111-113 | Each row but the last with `endl`, then the last row, is the rows joined by newlines. |
| AsciiArts.Render | src/libs/asciiArt/asciiArt.cpp:107-116 | `<<` writes the rows joined by newlines, and nothing for an empty art. |
| AsciiArts.RenderRoundTrip | src/libs/asciiArt/asciiArt.cpp:107-116 | A written picture splits back into its rows. |
| AsciiArts.Beside | src/libs/asciiArt/asciiArt.cpp:128-141 | The rows of `+`: each row of the result is the left row followed by the right row. |
| AsciiArts.BesideRectangular | src/libs/asciiArt/asciiArt.cpp:128-141 | Two rectangular arts side by side form a rectangular art whose width is the sum of theirs. |
| AsciiArts.AsciiArt.constructor | src/libs/asciiArt/asciiArt.cpp:64-66 | A new art has no rows. |
| AsciiArts.AsciiArt.FromSymbols | src/libs/asciiArt/asciiArt.cpp:74-77 | The art holds the given rows, or the constructor gives invalid_argument exactly when check_Symbols rejects them. |
| AsciiArts.AsciiArt.SetArt | src/libs/asciiArt/asciiArt.cpp:53-58 | It gives invalid_argument, with the art unchanged, exactly when check_Symbols rejects the rows. Otherwise the art becomes a copy of them. |
| AsciiArts.AsciiArt.AddLine | src/libs/asciiArt/asciiArt.cpp:87-96 | A line of another length than the first row is invalid_argument. Otherwise it becomes the last row. A rectangular art stays rectangular. |
| AsciiArts.AsciiArt.Plus | src/libs/asciiArt/asciiArt.cpp:128-141 | Heights that differ, or an empty left art, give invalid_argument. Otherwise the result is `Beside(left, right)` and neither operand changes. |
| AsciiArts.AsciiArt.Text | src/libs/asciiArt/asciiArt.cpp:107-116 | What `<<` writes: the rows joined by newlines. |
| OddsTable.AsChances | src/libs/dice/oneDice/odds/odds.cpp:147-162 | Numbers that fit in 32 bits read as chances and give back the same numbers. |
| OddsTable.OddsText | src/libs/dice/oneDice/odds/odds.cpp:173-183 | The text `<<` writes reads back as the six chances. |
| OddsTable.Odds.constructor | src/libs/dice/oneDice/odds/odds.cpp:30-36 | `Odds()` holds six ones. |
| OddsTable.Odds.FromArray | src/libs/dice/oneDice/odds/odds.cpp:46-49 | `Odds(const Chance*)` holds the first six entries of the array. |
| OddsTable.Odds.Copy | src/libs/dice/oneDice/odds/odds.cpp:57-60 | The copy constructor holds the other's chances in a buffer of its own. |
| OddsTable.Odds.Move | src/libs/dice/oneDice/odds/odds.cpp:68-71 | The move constructor copies the chances; the other keeps them. |
| OddsTable.Odds.SetOdds | src/libs/dice/oneDice/odds/odds.cpp:20-24 | `set_odds` copies six chances from the array. |
| OddsTable.Odds.GetOdds | src/libs/dice/oneDice/odds/odds.cpp:83-87 | `get_odds(i)` is chance `i` for `i < 6`, and out_of_range otherwise. |
| OddsTable.Odds.SetAt | src/libs/dice/oneDice/odds/odds.cpp:99-103 | Writing through `operator[]` replaces exactly that chance, or is out_of_range with nothing changed. |
| OddsTable.Odds.Assign | src/libs/dice/oneDice/odds/odds.cpp:113-120 | Copy assignment copies the six chances; the other is unchanged. |
| OddsTable.Odds.MoveAssign | src/libs/dice/oneDice/odds/odds.cpp:130-134 | Move assignment copies the six chances as well. |
| OddsTable.Odds.Text | src/libs/dice/oneDice/odds/odds.cpp:173-183 | The text `<<` writes reads back as the six chances. |
| OneDices.Cube | src/libs/dice/oneDice/oneDice.cpp:40-51 | Every face picture is the shared top of the cube, the three front rows, and the shared base: eight rows of twelve characters. |
| OneDices.CubePlain | src/libs/dice/oneDice/oneDice.cpp:40-51 | A cube with plain front rows has no NUL and no newline in any row. |
| OneDices.FaceArtsPlain | src/libs/dice/oneDice/oneDice.cpp:40-51 | There are six face pictures, and no row of any of them holds a NUL or a newline, so `add_line` accepts each row. |
| OneDices.CheckNumPoints | src/libs/dice/oneDice/oneDice.cpp:21-24 | `check_NumPoints` holds exactly for the values 1 to 6. |
| OneDices.FaceArt | src/libs/dice/oneDice/oneDice.cpp:38-54 | `arts[num - 1]` for a value that passes `check_NumPoints`: a picture whose first four rows are the cube's top and whose last row is its base. |
| OneDices.NumPointsToAsciiArt | src/libs/dice/oneDice/oneDice.cpp:36-58 | A value outside 1..6 is invalid_argument. Otherwise the art holds that face's eight rows of twelve characters. |
| OneDices.PrefixSums | src/libs/dice/oneDice/oneDice.cpp:94-97 | Entry `i` is the wrapped 32-bit running sum up to chance `i`. |
| OneDices.PrefixAtTotal | src/libs/dice/oneDice/oneDice.cpp:94-97 | Each wrapped running sum is the exact sum modulo 2^32. |
| OneDices.TotalMonotone | src/libs/dice/oneDice/oneDice.cpp:94-97 | Exact running sums never decrease. |
| OneDices.PrefixAtExact | src/libs/dice/oneDice/oneDice.cpp:94-97 | When the chances sum to less than 2^32, every running sum is exact. |
| OneDices.PrefixSumsExact | src/libs/dice/oneDice/oneDice.cpp:94-97 | When the chances sum to less than 2^32, the prefix array is exact and sorted, which `find_value` relies on. |
| OneDices.Slot | src/libs/dice/oneDice/oneDice.cpp:69-82 | The first index below 5 whose prefix sum reaches the draw (5 when there is none); every earlier sum is below the draw. |
| OneDices.FindValue | src/libs/dice/oneDice/oneDice.cpp:69-82 | The bisection always gives a face in 1..6. On sorted prefix sums it gives one plus the first index whose sum reaches the draw. |
| OneDices.RandomNumber | src/libs/dice/oneDice/oneDice.cpp:98 | The unsigned short draw never exceeds the total, and is at least one when the total fits in 16 bits. |
| OneDices.Pick | src/libs/dice/oneDice/oneDice.cpp:92-100 | The face `random_odds` returns is always in 1..6. |
| OneDices.RandomOdds | src/libs/dice/oneDice/oneDice.cpp:92-100 | `random_odds` gives a face in 1..6. When the chances sum to less than 2^32, the face is `Pick`. |
| OneDices.PickInInterval | src/libs/dice/oneDice/oneDice.cpp:92-100 | When the chances sum to less than 2^16, the draw lies in `1..total` and within the picked face's interval of running sums, so each face is chosen in proportion to its chance. |
| OneDices.PickHasChance | src/libs/dice/oneDice/oneDice.cpp:92-100 | When the chances sum to less than 2^16, the picked face never has chance zero. |
| OneDices.StandardTotal | src/libs/dice/oneDice/odds/odds.cpp:30-36 | The default odds sum to six. |
| OneDices.StandardPick | src/libs/dice/oneDice/oneDice.cpp:92-100 | With the default odds the face is `rand() % 6 + 1`. |
| OneDices.WideRandomNumber | src/libs/dice/oneDice/oneDice.cpp:98 | The draw kept at full width always lies in `1..total`. |
| OneDices.WidePick | src/libs/dice/oneDice/oneDice.cpp:92-100 | The face chosen by the full-width draw is in 1..6. |
| OneDices.WidePickInInterval | src/libs/dice/oneDice/oneDice.cpp:92-100 | For every total below 2^32, the full-width draw lies in the picked face's interval, and that face has a non-zero chance. |
| OneDices.PickIsWidePick | src/libs/dice/oneDice/oneDice.cpp:98 | When the total fits in 16 bits, truncating the draw changes nothing. |
| OneDices.PickTruncated | src/libs/dice/oneDice/oneDice.cpp:98 | For the chances `{0,0,0,0,0,65536}` and `rand() == 65535`, the truncated draw gives face 1 (chance zero) where the full-width draw gives face 6. |
| OneDices.DieText | src/libs/dice/oneDice/oneDice.cpp:262-265 | `{value: v; odds: {...}}` reads back as the value and the six chances. |
| OneDices.DieTextRoundTrip | src/libs/dice/oneDice/oneDice.cpp:262-265 | The written die, followed by any text, reads back as the value and the chances, leaving that text. |
| OneDices.OneDice.Defaults | src/libs/dice/oneDice/oneDice.hpp:30-31 | Before a constructor body runs, a die shows 0 and has the default odds. |
| OneDices.OneDice.constructor | src/libs/dice/oneDice/oneDice.cpp:135-139 | `OneDice(odds)` copies the odds and draws a face in 1..6. The face is `Pick` when the chances sum to less than 2^32. |
| OneDices.OneDice.WithValue | src/libs/dice/oneDice/oneDice.cpp:148-152 | `OneDice(value, odds)` holds the value and the odds, or is invalid_argument exactly for a value outside 1..6. |
| OneDices.OneDice.Copy | src/libs/dice/oneDice/oneDice.cpp:160-163 | The copy constructor holds the other die's value and a copy of its odds. |
| OneDices.OneDice.Move | src/libs/dice/oneDice/oneDice.cpp:171-174 | The move constructor takes the value and copies the odds. The other die then shows 0. |
| OneDices.OneDice.SetOdds | src/libs/dice/oneDice/oneDice.cpp:108-111 | `set_odds` copies the six chances. |
| OneDices.OneDice.SetValue | src/libs/dice/oneDice/oneDice.cpp:121-126 | `set_value` stores a value in 1..6; otherwise it is invalid_argument and the value is unchanged. |
| OneDices.OneDice.ToChangeValue | src/libs/dice/oneDice/oneDice.cpp:216-220 | It stores and returns a fresh face in 1..6, which is `Pick` when the chances sum to less than 2^32. |
| OneDices.OneDice.GetValueAsciiArt | src/libs/dice/oneDice/oneDice.cpp:193-196 | The picture of the face shown, or invalid_argument for a value outside 1..6. |
| OneDices.OneDice.GetOdds | src/libs/dice/oneDice/oneDice.cpp:204-207 | A fresh copy of the die's odds. |
| OneDices.OneDice.Equal | src/libs/dice/oneDice/oneDice.cpp:230-233 | Two dice are equal exactly when they show the same value, whatever their odds. |
| OneDices.OneDice.Assign | src/libs/dice/oneDice/oneDice.cpp:275-282 | Copy assignment takes the other's value and chances; the other is unchanged. |
| OneDices.OneDice.MoveAssign | src/libs/dice/oneDice/oneDice.cpp:292-298 | Move assignment takes the chances, and `other` ends up showing 0. Without a self check, a self-move leaves the die showing 0. |
| OneDices.OneDice.Text | src/libs/dice/oneDice/oneDice.cpp:324-328 | What `<<` writes reads back as the die's value and chances. |
| DiceSet.WithoutCount | src/libs/dice/dice.cpp:203-216 | Removing the dice that show `v` leaves exactly as many fewer dice as showed `v`, and none of the rest shows `v`. |
| DiceSet.WithoutKeeps | src/libs/dice/dice.cpp:203-216 | Every remaining die was in the set. When no die shows `v`, nothing is removed. |
| DiceSet.WithoutSum | src/libs/dice/dice.cpp:203-216 | The remaining faces plus `v` times the number removed sum to the old total. |
| DiceSet.WithoutStep | src/libs/dice/dice.cpp:207-215 | One step of the walk: the next die is kept exactly when it does not show `v`. |
| DiceSet.WalkStep | src/libs/dice/dice.cpp:207-215 | The invariant of the `-=` walk (kept prefix, then the unvisited tail) carries over both the erase step and the advance step. |
| DiceSet.RollStep | src/libs/dice/dice.cpp:157-160 | Rolling one more die keeps every earlier die rolled and every later die untouched. |
| DiceSet.FacesOf | src/libs/dice/dice.cpp:90-92 | The pictures `get_value_AsciiArt` gives for each die, in order. |
| DiceSet.Strip | src/libs/dice/dice.cpp:90-92 | The left fold of AsciiArt `+` over the first `n` pictures is eight rows high. |
| DiceSet.Picture | src/libs/dice/dice.cpp:87-93 | No dice give an empty picture; otherwise it is eight rows high. |
| DiceSet.StripWidth | src/libs/dice/dice.cpp:90-92 | Each row of the first `n` pictures side by side is `12n` characters long. |
| DiceSet.StripTiles | src/libs/dice/dice.cpp:90-92 | The `k`-th twelve-character block of row `r` is row `r` of picture `k`. |
| DiceSet.PictureTiles | src/libs/dice/dice.cpp:87-93 | In the dice picture, row `r` has twelve characters per die, and block `k` is row `r` of the face die `k` shows. |
| DiceSet.LeadingJoin | src/libs/dice/dice.cpp:275-284 | The faces before the last, each followed by `", "`, then the last face, is the faces joined by `", "`. |
| DiceSet.DiceTextRoundTrip | src/libs/dice/dice.cpp:275-284 | `<<` writes the faces as a braced list that reads back as the same faces. |
| DiceSet.AsNatValues | src/libs/dice/dice.cpp:279-281 | The faces, as the numbers `<<` writes. |
| DiceSet.Dice.constructor | src/libs/dice/dice.cpp:15-17 | `Dice()` holds no dice. |
| DiceSet.Dice.Copy | src/libs/dice/dice.cpp:25-28 | The copy constructor holds the same dice. |
| DiceSet.Dice.Move | src/libs/dice/dice.cpp:36-39 | The move constructor takes the dice and leaves the other empty, with no buffer. |
| DiceSet.Dice.Sized | src/libs/dice/dice.cpp:47-50 | `Dice(n)` holds `n` dice with default odds, each showing `rand() % 6 + 1` for its own draw. |
| DiceSet.Dice.DefaultDice | src/libs/vector/vector.cpp:26-29 | `Vector<OneDice>(n)` default-constructs `n` dice, each with its own draw, with capacity `n`. |
| DiceSet.Dice.FromValues | src/libs/dice/dice.cpp:58-68 | It is invalid_argument exactly when a value is outside 1..6. Otherwise die `i` shows value `i` with default odds. |
| DiceSet.Dice.GetAsciiArt | src/libs/dice/dice.cpp:87-93 | `get_AsciiArt` gives an empty art for no dice. Otherwise it gives the faces' pictures side by side, as `Picture` defines. |
| DiceSet.Dice.FoldFaces | src/libs/dice/dice.cpp:91-92 | The `std::accumulate` over the dice gives the fold `Strip` of all faces. |
| DiceSet.Dice.FirstFace | src/libs/dice/dice.cpp:91 | The fold starts from the first die's picture. |
| DiceSet.Dice.FoldFrom | src/libs/dice/dice.cpp:91-92 | The accumulate loop from the second die to the last extends the fold of the first face to the fold `Strip` of all faces. |
| DiceSet.Dice.AddDie | src/libs/dice/dice.cpp:91-92 | One step of the loop reads the next die and extends the fold by its face. |
| DiceSet.Dice.AddFace | src/libs/dice/dice.cpp:92 | One accumulate step adds the next die's picture to the fold. |
| DiceSet.Dice.HasNumPoints | src/libs/dice/dice.cpp:105-111 | A value outside 1..6 is invalid_argument. Otherwise the result is true exactly when some die shows the value. |
| DiceSet.Dice.Sum | src/libs/dice/dice.cpp:119-123 | The faces' sum, truncated to unsigned short. |
| DiceSet.Dice.Assign | src/libs/dice/dice.cpp:133-137 | Copy assignment holds the other's dice; the other is unchanged. |
| DiceSet.Dice.MoveAssign | src/libs/dice/dice.cpp:147-151 | Move assignment takes the other's dice and, unless both are the same, leaves the other empty with no buffer. |
| DiceSet.Dice.RollAll | src/libs/dice/dice.cpp:157-160 | `operator()()` rolls every die with its own draw: same odds, a face in 1..6, and the `Pick` face when the chances sum to less than 2^32. |
| DiceSet.Dice.RollAt | src/libs/dice/dice.cpp:159 | Rolling one die changes only that die's face. |
| DiceSet.Dice.Roll | src/libs/dice/dice.cpp:172-177 | `operator()(i)` rolls die `i` and returns its new face, or is out_of_range with nothing changed. |
| DiceSet.Dice.PlusAssign | src/libs/dice/dice.cpp:187-191 | `+=` appends a copy of the die. |
| DiceSet.Dice.MinusAssign | src/libs/dice/dice.cpp:203-216 | A value outside 1..6 is invalid_argument with nothing changed. Otherwise exactly the dice showing the value are removed and the others keep their order. |
| DiceSet.Dice.EraseIfShows | src/libs/dice/dice.cpp:208-214 | One step of the walk: a die showing the value is erased and the iterator stays; otherwise the iterator moves on. |
| DiceSet.Dice.At | src/libs/dice/dice.cpp:228-233 | `operator[]` gives die `i`, or out_of_range for `i` not below the count. |
| DiceSet.Dice.Text | src/libs/dice/dice.cpp:275-284 | `<<` on non-empty dice writes `{f0, f1, ...}`, which reads back as the faces. |

## Left out

- I/O streams: the `>>` operators of Odds, OneDice and Dice and `OneDice::input` are not modelled. The `<<` operators are modelled as the text they write, together with a reader that proves the text can be read back.
- `rand()` is a parameter (`rand: nat`, or one draw per die); the random source itself is not modelled.
- Memory: allocation failure (`bad_alloc`), destructors and `size_t` overflow are not modelled.
- Vectors.Vector.PushBack: requires a capacity above zero. A moved-from vector has capacity 0, so doubling it would never make room.
- Vectors.Vector.PushFront: requires a capacity above zero, for the same reason.
- Vectors.Vector.Insert: requires a capacity above zero, for the same reason.
- Vectors.Vector.InsertRange: requires a capacity above zero for a non-empty range, because the doubling loop would never end. The source range must come from another vector.
- Vectors.Vector.Erase: excludes `end()` as the position. There the copy range `[end() + 1, end())` is inverted. Depending on how `std::copy` steps through it, it throws invalid_argument from the iterator difference or walks off the buffer.
- Vectors.Vector.PopBack: requires a non-empty vector; on an empty one the unsigned size would wrap.
- Vectors.Vector.PopFront: requires a non-empty vector, for the same reason.
- VectorIterators: iterators are positions. Whether two iterators point into the same vector, and what the raw pointers outside the buffer hold, are not modelled.
- Vectors.Vector.SetAt: a write through the reference `operator[]` returns is modelled as one call with a range check.
- Strings.String.Plus: requires `size + other.size >= 1`. Otherwise the `size - 1` growth would wrap around as an unsigned value.
- Strings.String.Assign: requires the other string to be at least as long. A shorter one makes the noexcept resize throw, which terminates the program.
- Strings.String.PlusAssign: requires the two strings not to share a buffer (`s += s`).
- Strings.String.PlusAssign: requires a left operand of size one or more. A moved-from string has size 0, so `get_length()` wraps to SIZE_MAX and the copy goes to `begin() + SIZE_MAX`, outside the buffer.
- Strings.String.Concat: requires a left operand of size one or more, for the same reason as PlusAssign.
- Strings.String.CString: requires a NUL among the live elements, and models `get_cstring` as the text a C reader sees up to that NUL. A moved-from string has size 0 and `get_cstring` returns a null pointer; a string whose live slots hold no NUL lets the reader run past them. Both are undefined for the reader and are not modelled.
- AsciiArts.AsciiArt: rows are modelled as the texts of their Strings, because every use of a row reads or appends its text.
- DiceSet.Dice.PlusAssign: requires a capacity above zero, for the same reason as push_back.
- DiceSet.Dice.Text: requires at least one die. On no dice, `cend() - 1` lies before `cbegin()`, and the source's `for_each` over that range is undefined.
- DiceSet.Dice.GetAsciiArt: requires every die to show a face in 1..6. The call is noexcept, so an invalid face would terminate the program.
- DiceSet.Dice.At: the reference `operator[]` returns is modelled as a read only; writes go through the other members.
- OneDices.RandomOdds: when the chances sum to 2^32 or more, the running sums wrap, and only "a face in 1..6" is promised.
- OneDices.OneDice.ToChangeValue: promises only "a face in 1..6" when the chances sum to 2^32 or more, for the same reason.
- DiceSet.Dice.Roll: promises only "a face in 1..6" when the chances sum to 2^32 or more, for the same reason.
- DiceSet.Dice.RollAll: promises only "a face in 1..6" when the chances sum to 2^32 or more, for the same reason.
- DiceSet.Dice.RollAt: promises only "a face in 1..6" when the chances sum to 2^32 or more, for the same reason.
- OneDices.OneDice.constructor: promises only "a face in 1..6" when the chances sum to 2^32 or more, for the same reason.
- OneDices.RandomOdds: requires a non-zero last running sum, because with a zero sum `rand() % 0` is undefined. The members that draw through it carry the same requires: the OneDice constructor, OneDice.ToChangeValue, Dice.Roll, Dice.RollAt and Dice.RollAll.
- Getters such as `get_value` and `get_size`, and `cbegin`/`cend`, are direct reads of the model's state and have no member of their own.
- Odds validation: `set_odds` does not validate the chances (its validation call is commented out in the source), so neither does the model.

## Findings

| source | as written | input that shows it | evidently intended | confidence | as-written member | corrected member |
|---|---|---|---|---|---|---|
| src/libs/string/string.cpp:101-107 | `+` grows a copy of the left string by `other.size - 1` unwritten slots and inserts the right string before the last of them. The left terminator stays in front of the inserted text. | `String("Hello") + String(", wrold!")` reads back as `"Hello"`. tests/string_tests.cpp:12-17 checks for exactly this. | `"Hello, wrold!"`: the concatenation the operator's documentation describes | not executed; high | Strings.String.Plus, Strings.PlusHelloWorld | Strings.String.Concat |
| src/libs/asciiArt/asciiArt.cpp:36-43 | check_Symbols uses `std::any_of` with the first row's length, which the first row always matches. | The ragged rows `["ab", "c"]` are accepted. | `std::all_of`: every row as long as the first, as documented at asciiArt.cpp:34 | not executed; high | AsciiArts.CheckSymbols, AsciiArts.CheckSymbolsAcceptsRagged | AsciiArts.CheckSymbolsAll |
| src/libs/vector/vector.cpp:89-91 | Every growth step is `resize(capacity * 2)`: here in push_back, and likewise at vector.cpp:101-102, 141-142 and 169-170. Doubling capacity 0 gives 0. | `Vector<int>(0)`, `Dice(0)` or any moved-from vector: push_back, push_front and insert write past a buffer of length 0, and the range insert's `while (capacity - size < dist)` never ends when `dist > 0`. | Growth from `max(1, capacity)`, as the default constructor's capacity of one suggests | not executed; high | Vectors.Doublings, Vectors.ZeroCapacityNeverGrows | Vectors.GrownCapacityFromOne, Vectors.PushCapacityFromOne |
| src/libs/dice/oneDice/oneDice.cpp:98 | The draw `rand() % prefix[5] + 1` is stored in an unsigned short. | The chances `{0,0,0,0,0,65536}` with `rand() == 65535` (fine on platforms with RAND_MAX ≥ 65535): the draw 65536 truncates to 0 and gives face 1, which has chance 0. | A full-width draw, which gives face 6 | not executed; medium | OneDices.Pick, OneDices.PickTruncated | OneDices.WidePick, OneDices.WidePickInInterval |

The operations themselves follow the code as written: `AsciiArt.SetArt` uses `CheckSymbols`, `RandomOdds` uses `Pick`, and the growing Vector operations keep their `capacity > 0` requires (see Left out). The corrected members sit beside them with the intended property proved.
