# my::vector and Array<T, N> in Dafny

This project models two containers from a small C++ container library.

`my::vector` (Vector.hpp) is a growable contiguous sequence. It owns a raw block
`[m_first, m_end)`. Its live elements are the prefix `[m_first, m_last)`. In the
model the block is an `array<T>` field `buf`, so `capacity()` is `buf.Length`. A
zero-length array stands for the null block. `size()` is the field `sz`, and
the live prefix is `Contents() == buf[..sz]`. Iterators and positions are indices.

Every operation that can throw returns an `Outcome` (`Success` or `Failure(e)`)
or a `Result` (`Ok(v)` or `Err(e)`), where `e` is `LengthError`, `OutOfRange`
or `BadAlloc`:

- `length_error` comes from `reserve` and `resize` when `n > max_size()`.
- `out_of_range` comes from `at` and `erase`.
- `BadAlloc` is the allocator's `bad_array_new_length`, when more than
  `max_size()` slots are requested.

`max_size()` is the constant `VectorSpec.MaxSize`, which is SIZE_MAX / 8 (a
64-bit `size_t` and an 8-byte `T`). A failed operation commits no field change,
except where its contract says so: `assign` and `operator=(initializer_list)`
have already destroyed the old contents when they fail.

The growth policy is modelled exactly as written:

- `reserve(n)` is a no-op when `n <= capacity()`. Otherwise the new capacity
  is `max(n, 2 * capacity())`.
- Each element is copied into a fresh block before the fields switch to it.
  The old block is never written.
- push_back, emplace_back, insert and emplace reserve `size() + k` whenever
  `size() + k >= capacity()`. This trigger is kept as written. At equality the
  reserve is a no-op, so the trigger behaves exactly like `size() + k > capacity()`.
- Because reserve grows to `max(n, 2 * capacity())`, pushes from empty give
  capacities 1, 2, 4, 4, 8, …. After k pushes the capacity is the smallest power
  of two that is at least k.

The shifting loops are modelled on the array itself:

- Inserts shift the suffix towards the end, last element first. They then
  write the new elements into the gap.
- Erases shift the suffix forward over the erased positions.

`Array<T, N>` (Array.hpp) is modelled as a class over a constant `array<T>` of
length N. The `Array<T, 0>` specialisation is the case N == 0:

- `at` always fails with `OutOfRange`.
- `fill` does nothing.
- `empty()` holds.
- `operator[]`, `front` and `back` abort in the source. Their preconditions
  leave them with no caller when N == 0.

The model does not track which slots hold constructed objects: only element
values are modelled. The destroy loops of `clear`, `pop_back`, `erase` and
`resize` therefore only move the `sz` boundary.

Modules:

- `Outcomes`: the error types.
- `VectorSpec`: the pure growth policy, `Repeat`, `Resized` and the lemmas
  about pushes from empty.
- `MyVector`: class `Vector` and the non-member `swap`.
- `MyArray`: class `FixedArray` and the non-member `swap`, `==` and `!=`.
- `VectorScenarios`:
  - round trips stated across several calls;
  - concrete scenarios proved from the contracts.

## Model

| member | source | states |
|---|---|---|
| VectorSpec.Repeat | Vector.hpp:91-113 | the fill sequence has exactly n elements, each equal to the value |
| VectorSpec.Resized | Vector.hpp:460-496 | resize's result has length n, keeps the first min(n, size) elements and has c in every appended slot |
| VectorSpec.ReserveGrowth | Vector.hpp:499-544 | reserve fails with length_error iff n > max_size, with bad_alloc iff cap < n <= max_size < 2cap; on success the capacity is at least n and at least the old one, is unchanged when n <= cap, and at least doubles when it grows |
| VectorSpec.GrowthMakesRoom | Vector.hpp:616-619 | when the growth step `size()+k >= capacity()` then `reserve(size()+k)` succeeds, there is room for k more elements within max_size, and a vector with at least k free slots is left alone |
| VectorSpec.TriggerEquivalent | Vector.hpp:616-619 | the `size()+k >= capacity()` growth step has exactly the outcome and capacity of a `size()+k > capacity()` step, because reserve returns early at equality (Vector.hpp:503-504) |
| VectorSpec.PushesFromEmpty | Vector.hpp:634-648 | after k >= 1 successful push_backs from empty, the capacity is 2^e, the least power of two >= k, and exactly e+1 reallocations happened |
| VectorSpec.Pow2Monotone | Vector.hpp:505 | the doubling capacities 2^e grow with e |
| VectorSpec.LeastPowerOfTwo | Vector.hpp:634-648 | the exponent of the push capacity is the least one whose power of two holds k elements |
| MyVector.Vector.At | Vector.hpp:593-604 | at(i) fails with out_of_range iff i >= size(), otherwise yields the i-th live element |
| MyVector.Vector.Get | Vector.hpp:591-592 | operator[] on a live index gives what at gives |
| MyVector.Vector.Front | Vector.hpp:605-606 | front() of a non-empty vector is at(0) |
| MyVector.Vector.Back | Vector.hpp:607-608 | back() of a non-empty vector is at(size()-1) |
| MyVector.Queries | Vector.hpp:414-418 | size() is the number of live elements, size() <= capacity() <= max_size(), and empty() iff there are no elements |
| MyVector.Vector.constructor | Vector.hpp:59 | the default vector has no elements and capacity 0 |
| MyVector.Vector.Relocate | Vector.hpp:514-522 | a fresh block of the requested capacity receives the first n elements in order; the source block is not written |
| MyVector.Vector.Build | Vector.hpp:119-129 | a fresh block with one slot per element of xs, holding xs in order |
| MyVector.Vector.FromSeq | Vector.hpp:116-141 | the range constructor, and the initializer-list constructor (Vector.hpp:227-251), fail iff the range is longer than max_size; otherwise the vector holds the range with capacity equal to its length |
| MyVector.Vector.Filled | Vector.hpp:91-113 | vector(n, value) fails iff n > max_size; otherwise exactly n copies of value with capacity n |
| MyVector.Vector.Defaulted | Vector.hpp:66-88 | vector(n) fails iff n > max_size; otherwise size and capacity are n and all n elements are one value |
| MyVector.Vector.Copy | Vector.hpp:144-167 | the copy has the same elements in a fresh block of exactly other.size() slots |
| MyVector.Vector.Move | Vector.hpp:170-178 | the new vector takes the source's block and elements; the source ends with size 0 and capacity 0 |
| MyVector.Vector.CopyAssign | Vector.hpp:261-290 | afterwards the elements equal x's, in a fresh block of x.size() slots; self-assignment changes nothing |
| MyVector.Vector.MoveAssign | Vector.hpp:293-307 | takes x's block and elements and leaves x with size 0 and capacity 0; self-assignment changes nothing |
| MyVector.Vector.ListAssign | Vector.hpp:310-336 | the vector holds exactly the list in a block of its length, or, when the list exceeds max_size, is left with no elements and no block |
| MyVector.Vector.Reserve | Vector.hpp:499-544 | the outcome and new capacity follow the growth rule; size and elements never change; a failure or a no-op keeps the block; the old block is untouched |
| MyVector.Vector.Grow | Vector.hpp:618-619 | the growth step's outcome and capacity are those of VectorSpec.GrowthOutcome/GrownCapacity, with room for the extra elements on success and elements unchanged |
| MyVector.Vector.ShrinkToFit | Vector.hpp:547-588 | capacity becomes size (0 when empty) in a fresh block, elements unchanged |
| MyVector.Vector.Clear | Vector.hpp:949-960 | no elements remain and the block (so the capacity) is kept |
| MyVector.Vector.PushBack | Vector.hpp:634-665 | on success the elements are old + [x] and the capacity follows the growth step; the block is kept whenever size()+1 <= capacity(), where reserve is a no-op; on failure nothing changes |
| MyVector.Vector.EmplaceBack | Vector.hpp:615-631 | as push_back: the same outcome, elements old + [x], capacity from the growth step and the block kept when size()+1 <= capacity(); the back element is x |
| MyVector.Vector.PopBack | Vector.hpp:668-672 | a non-empty vector loses its last element; the block is kept |
| MyVector.Vector.OpenGap | Vector.hpp:804-812 | the tail-first shift moves elements j..size() n slots up and keeps the prefix before j |
| MyVector.Vector.Place | Vector.hpp:870-876 | the new elements land at j.. in order and no other slot changes |
| MyVector.Vector.InsertElements | Vector.hpp:850-891 | after growth, shift and placement the elements are old[..j] + xs + old[j..] and the result is j; the capacity follows the growth step and the block is kept when size()+|xs| <= capacity(); a growth failure changes nothing |
| MyVector.Vector.Insert | Vector.hpp:719-796 | insert(pos, x) gives old[..j] + [x] + old[j..] and returns j, with the capacity of the growth step and the block kept when size()+1 <= capacity(), or fails with the growth step's error and changes nothing |
| MyVector.Vector.Emplace | Vector.hpp:677-718 | emplace(pos, x) has insert(pos, x)'s outcome, elements, capacity and block, and changes nothing on failure |
| MyVector.Vector.InsertCount | Vector.hpp:797-843 | gives old[..j] + n copies of x + old[j..] and returns j, with the capacity of the growth step; n == 0 returns j and changes nothing |
| MyVector.Vector.InsertRange | Vector.hpp:844-891 | gives old[..j] + the range + old[j..] and returns j, with the capacity of the growth step; an empty range returns j and changes nothing |
| MyVector.Vector.InsertList | Vector.hpp:892-895 | the initializer-list insert has the range insert's outcome, elements and capacity over the list; an empty list returns j and changes nothing |
| MyVector.Vector.Erase | Vector.hpp:898-913 | fails with out_of_range, changing nothing, unless 0 <= j < size(); otherwise gives old[..j] + old[j+1..] and returns j |
| MyVector.Vector.EraseRange | Vector.hpp:916-935 | fails with out_of_range, changing nothing, unless 0 <= j < k <= size(); otherwise gives old[..j] + old[k..], size drops by k-j, returns j |
| MyVector.Vector.Resize | Vector.hpp:460-496 | fails with length_error beyond max_size (and with the reserve error when growing); on success size() == n and the elements are Resized(old, n, c); the block is kept whenever n <= capacity(), which covers shrinking and growing within the capacity (reserve's no-op) |
| MyVector.Vector.ResizeDefault | Vector.hpp:421-457 | as resize(n, c) with c the value-initialised T: size() == n, the kept prefix unchanged, all appended elements equal; the block is kept whenever n <= capacity(), and growing beyond it gives reserve's capacity |
| MyVector.Vector.AssignRangeAsWritten | Vector.hpp:339-363 | the code as written: the vector ends empty although the range was constructed into its block, which is the old block whenever the range fits the old capacity |
| MyVector.Vector.AssignAsWritten | Vector.hpp:366-386 | the code as written: the vector ends empty although n copies of u were constructed into its block, which is the old block whenever n <= capacity() |
| MyVector.Vector.AssignRange | Vector.hpp:339-363 | on success the vector holds exactly the range with reserve's capacity; on a reserve failure it is left empty; the block is kept whenever the new size fits the old capacity, where reserve is a no-op |
| MyVector.Vector.Assign | Vector.hpp:365-386 | on success exactly n copies of u with reserve's capacity; on a reserve failure the vector is left empty; the block is kept whenever the new size fits the old capacity, where reserve is a no-op |
| MyVector.Vector.AssignListAsWritten | Vector.hpp:388-392 | the code as written: assign(initializer_list) forwards to the defective range assign, so the vector ends empty with the list in its raw slots, the old block kept whenever the list fits the old capacity |
| MyVector.Vector.AssignList | Vector.hpp:388-392 | the intended assign(initializer_list): the corrected range assign's outcome over the list, exactly the list with reserve's capacity, or left empty with the block kept; the block is kept whenever the new size fits the old capacity, where reserve is a no-op |
| MyVector.Vector.Swap | Vector.hpp:938-946 | the two vectors exchange blocks, so both element sequences and both capacities |
| MyVector.Swap | Vector.hpp:963-968 | the non-member swap exchanges the two vectors' blocks and elements |
| VectorScenarios.InsertEraseInverse | Vector.hpp:898-913 | erasing at j what was inserted at j gives back the original sequence |
| VectorScenarios.PushThenPop | Vector.hpp:634-672 | push_back then pop_back leaves the elements as they were |
| VectorScenarios.InsertThenErase | Vector.hpp:719-759 | insert(j, x) then erase(j) leaves the elements as they were |
| VectorScenarios.CopyIsIndependent | Vector.hpp:144-167 | pushing onto a copy leaves the original's elements unchanged |
| VectorScenarios.MoveLeavesSourceEmpty | Vector.hpp:170-178 | after a move construction the source has size 0 and capacity 0 and the new vector has its elements |
| VectorScenarios.AtBounds | Vector.hpp:593-604 | at(size()) fails with out_of_range and at(size()-1) succeeds on a non-empty vector |
| VectorScenarios.PushFiveFromEmpty | Vector.hpp:634-648 | pushing 1..5 from empty gives [1,2,3,4,5] with capacities 1, 2, 4, 4, 8 |
| VectorScenarios.InsertThenEraseRange | Vector.hpp:916-935 | [1,2,3,4] with 99 inserted at 2 is [1,2,99,3,4]; erasing [1,3) then gives [1,3,4] |
| VectorScenarios.AssignThreeCopies | Vector.hpp:365-386 | assign(3, 'x') leaves the vector empty as written and gives ['x','x','x'] as intended |
| VectorScenarios.AssignRangeOfTwo | Vector.hpp:339-363 | assigning the range [7, 8] leaves the vector empty as written and gives [7, 8] as intended |
| VectorScenarios.AssignListOfTwo | Vector.hpp:388-392 | assign({7, 8}) leaves the vector empty as written and gives [7, 8] as intended |
| MyArray.FixedArray.constructor | Array.hpp:27 | the array holds the initialiser values in order |
| MyArray.FixedArray.At | Array.hpp:30-41 | at(i) fails with out_of_range iff i >= N, otherwise yields element[i] |
| MyArray.FixedArray.Get | Array.hpp:42-49 | operator[] on a valid index gives what at gives |
| MyArray.FixedArray.Front | Array.hpp:50-57 | for N > 0, front() is at(0) |
| MyArray.FixedArray.Back | Array.hpp:58-65 | for N > 0, back() is at(N-1) |
| MyArray.FixedArray.Fill | Array.hpp:140-144 | every element equals u afterwards; nothing else is written |
| MyArray.SizeQueries | Array.hpp:127-138 | size() == max_size() == N, and empty() iff N == 0 |
| MyArray.ZeroLengthAt | Array.hpp:164-192 | for N == 0 every at fails with out_of_range, and the array is empty |
| MyArray.Swap | Array.hpp:198-205 | lhs ends with rhs's old elements and rhs with lhs's, element by element |
| MyArray.Equal | Array.hpp:207-218 | == holds iff the sizes agree and lhs[i] == rhs[i] for every i < N |
| MyArray.NotEqual | Array.hpp:220-224 | != is exactly the negation of == |

## Findings

| source | as written | input that shows it | evidently intended | confidence | as-written member | corrected member |
|---|---|---|---|---|---|---|
| Vector.hpp:366-386 | `assign(n, u)` constructs n copies of u into the block but never advances `m_last`, so `size()` stays 0 after the `clear()` | `assign(3, 'x')` on `['a', 'b']` leaves an empty vector | the vector holds exactly n copies of u (the comment at line 365) | high, not executed | MyVector.Vector.AssignAsWritten (called by VectorScenarios.AssignThreeCopies) | MyVector.Vector.Assign |
| Vector.hpp:340-363 | `assign(first, last)` constructs the range into the block but never advances `m_last` | assigning the range `[7, 8]` to an empty vector leaves it empty | the vector holds exactly the range | high, not executed | MyVector.Vector.AssignRangeAsWritten (called by VectorScenarios.AssignRangeOfTwo) | MyVector.Vector.AssignRange |
| Vector.hpp:388-392 | `assign(initializer_list)` forwards to the range assign above, so it inherits the missing `m_last` update | `assign({7, 8})` on an empty vector leaves it empty | the vector holds exactly the list | high, not executed | MyVector.Vector.AssignListAsWritten (called by VectorScenarios.AssignListOfTwo) | MyVector.Vector.AssignList |

Other places where the source deviates from what it evidently intends are not visible at the level of element values. The model follows the intended behaviour there:

- `resize(n)` (Vector.hpp:421-457) does not compile, because it uses an undeclared `c` (line 444). Its shrink loop (line 430) counts upwards from `size()` and so destroys slots past the live range. The model treats it as `resize(n, T())`.
- In `resize(n, c)` the shrink loop (line 469) never runs, so trailing elements are never destroyed. `m_last` is still reset, which is all the model sees.
- `shrink_to_fit()` on an empty vector (lines 553-556) drops the block without deallocating it.
- `reserve`'s `n == 0` branch (lines 506-510) cannot be reached, because `n > capacity()` there. The same holds for `erase`'s `j >= old_size` branch (lines 904-905), which its range check excludes. The model has neither branch.
- `pop_back` calls `allocator_traits::destroy` without `_t` (line 671). Unqualified `initializer_list` and `type_identity_t` are used (lines 181, 204, 227, 892). These are compile errors and have no counterpart in the model.

## Left out

- Allocators: the allocator object, `allocator_traits`, `get_allocator`, and the allocator-taking constructors (Vector.hpp:62-63, 180-224) are left out. Allocation is `new T[n]`. It fails only when n exceeds `max_size()`, as `std::allocator` does; running out of memory is not modelled.
- Object lifetimes are left out: raw versus constructed slots, `construct`/`destroy` pairing, and `move_if_noexcept` versus copy. The model holds element values only.
- Element constructors that throw are left out, and so are all the rollback paths behind them (the `catch` blocks). These include the faulty ones: `emplace_back` destroys an unconstructed slot (line 626), `push_back` passes an extra argument to `destroy` (line 644), the count-insert rollback is miscounted through a shadowed `i` (lines 824-833), and `assign`'s catch advances the iterator (line 359). In the model, an operation that fails because of a length or allocation error commits no field change.
- Writes through the references that the non-const `at`, `operator[]`, `front` and `back` return (Vector.hpp:591, 599-607; Array.hpp:30-35, 42-45, 50-53, 58-61) are left out. The model's accessors read only.
- Iterators, reverse iterators and `data()` are left out. Positions are indices, and `Contents()` is the `[begin(), end())` view.
- Generic input iterators are left out. The range constructor, range insert and range assign take a `seq<T>`.
- Aliasing of an argument with the vector's own elements is left out. For example, `insert(pos, v[k])` or `push_back(v[0])` across a reallocation reads a shifted or freed slot in the source. The model passes x by value.
- Destructors (Vector.hpp:254-258) are left out. They only destroy and free, so they have no value-level effect.
- MyVector.Vector.InsertCount: when `size() + n` exceeds SIZE_MAX, the unsigned sum wraps around in the source. With the wrapped sum `reserve` is skipped or sized too small, and the shift and fill loops (Vector.hpp:802-827) then construct past `m_end`, which is undefined behaviour. The model uses unbounded integers and reports `LengthError` there.
- MyVector.Vector.Defaulted: the values of `T()` are left open, because Dafny's generic T has no value-initialised element. Size, capacity and that all elements are one value are stated.
- MyVector.Vector.ResizeDefault: for the same reason, the appended elements are only stated to be all equal.
- MyVector.Vector.EmplaceBack: it returns the outcome instead of a reference to the new element. The element is stated as `Back()`.
- Array<T, N>'s `data()`, `begin`/`end` and reverse iterators (Array.hpp:67-125, 173-189) are left out, like the vector's.
