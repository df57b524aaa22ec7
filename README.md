# EmbeddedCppUtils in Dafny

This project models the sequential core of EmbeddedCppUtils, a header-only
C++ library of utilities for embedded code that never allocate. It is
written in Dafny and proves properties of that model. The parts modelled:

- **Fixed-capacity containers.**
  - `bounded_queue` is a ring buffer with head and tail indices and a full flag.
  - `bounded_vector` is an array with an end cursor. It shifts elements on `emplace` and `erase`.
  - `bounded_stack` is an array with a top cursor.

  Each is a Dafny class over an `array`. Its methods are proved against a
  ghost `Contents()` sequence.
- **Hash tables.**
  - `bounded_hash_map` uses open addressing with upward linear probing and no wrap-around.
  - `hash_map` uses separate chaining, with a `seq` per bucket.
- **`MessageManager`.** A `map` from keys to message entries.
  - Each entry has four `uint32_t` counters: responses needed, success threshold, acknowledgements and failures.
  - Registration, retrieval, status updates and removal are modelled.
  - The classification of an entry as succeeded, failed or timed out is modelled too.
- **Integer helpers.**
  - `safe_compare`: mixed-signedness comparisons over explicit integer types.
  - `strong_type`: overflow-checked arithmetic on an unsigned type with a given maximum.
- **Strings.**
  - `basic_string_view`: a pointer into a character array, plus a length.
  - `ntl::tolower`.
  - The CSV parser: comment stripping, blank-line skipping, `getline` cell splitting, and the bool cell formatter.
- **Small algorithms.**
  - `binary_find`, the lower bound.
  - `find_if` and `find`, each with a found-flag.
  - `select`, a filtering copy into an array.
  - `find_and_execute_fcn`.
- **Small state machines.**
  - `uninitialized_storage`: the init flag.
  - `observer_ptr`.
  - `guid_generator`: a wrapping `uint32_t` counter.

C++ exceptions become `Result`, `Outcome` or `Option` values (module
`Wrappers`). Iterators become indices. `uint32_t` arithmetic wraps
explicitly (module `Bits`). Hash functions and allocator calls are
parameters.

Each file is one module and mirrors one header:

| File | Header |
|---|---|
| bounded_queue.dfy | bounded_queue.h |
| bounded_vector.dfy | bounded_vector.h |
| bounded_stack.dfy | bounded_stack.h |
| bounded_hash_map.dfy | bounded_hash_map.h |
| hash_map.dfy | hash_map.h |
| message_manager.dfy | MessageManager.h |
| safe_compare.dfy | safe_compare.h |
| safe_type.dfy | ntl_safetype.h |
| string_view.dfy | ntl_string_view.h |
| strings.dfy | ntl_strings.h |
| csv_parser.dfy | csv_parser.h |
| algorithm.dfy | ntl_algorithm.h |
| find.dfy | ntl_find.h |
| iterator_utils.dfy | iterator_utils.h |
| uninitialized_storage.dfy | uninitialized_storage.h |
| observer_ptr.dfy | observer_ptr.h |
| guid_generator.dfy | guid_generator.h |

`wrappers.dfy` and `bits.dfy` are shared. Where the code does something
evidently unintended, the model gives both versions: the code as written,
with a lemma that shows the defect, and the corrected behaviour, which the
rest of the model uses. These cases are listed under "Findings".

## Model

| member | source | states |
|---|---|---|
| `BoundedQueues.BoundedQueue.constructor` | inc/bounded_queue.h:48-54 | A new queue has head = tail = 0, the flag clear, and no contents. |
| `BoundedQueues.BoundedQueue.Empty` | inc/bounded_queue.h:99-102 | `empty()` holds iff the queue's contents are the empty sequence. |
| `BoundedQueues.BoundedQueue.IsFull` | inc/bounded_queue.h:119-122 | The full flag is set iff the number of queued elements equals the capacity. |
| `BoundedQueues.BoundedQueue.Size` | inc/bounded_queue.h:149-165 | `size()` is the true number of queued elements and never exceeds the capacity. It reaches the capacity exactly when `is_full()`. |
| `BoundedQueues.BoundedQueue.Front` | inc/bounded_queue.h:104-112 | On a non-empty queue, `front()` is the oldest element. |
| `BoundedQueues.BoundedQueue.IncrementTail` | inc/bounded_queue.h:193-207 | The tail advances by one and wraps to 0 at the end. The flag becomes set iff the tail lands on the head. Both indices stay below the capacity. |
| `BoundedQueues.BoundedQueue.IncrementHead` | inc/bounded_queue.h:180-191 | The head advances by one and wraps to 0. The flag is cleared. Both indices stay below the capacity. |
| `BoundedQueues.BoundedQueue.Push` | inc/bounded_queue.h:138-147 | A full queue gives runtime_error and its indices, flag and slots are unchanged. Otherwise the value is appended at the back, and the flag is set iff tail meets head. |
| `BoundedQueues.BoundedQueue.Emplace` | inc/bounded_queue.h:87-97 | Same contract as `push`, for an element built in place. |
| `BoundedQueues.BoundedQueue.Pop` | inc/bounded_queue.h:129-136 | A no-op on an empty queue. Otherwise it removes exactly the oldest element (FIFO) and clears the flag. |
| `BoundedQueues.BoundedQueue.Drain` | inc/bounded_queue.h:64-70 | The destructor's loop of `pop` ends with an empty queue. |
| `BoundedQueues.Next` | inc/bounded_queue.h:182-186 | The wrapped increment equals `(i + 1) mod capacity` and stays below the capacity. |
| `BoundedQueues.AppendAtTail` | inc/bounded_queue.h:193-207 | Writing the tail slot and advancing the tail appends exactly that element to the window between head and tail, in every wrap configuration. |
| `BoundedQueues.RemoveAtHead` | inc/bounded_queue.h:180-191 | Advancing the head removes exactly the first element of a non-empty window. |
| `BoundedVectors.BoundedVector.constructor` | inc/bounded_vector.h:646-649 | A new vector has the cursor at slot 0 and no contents. |
| `BoundedVectors.BoundedVector.Size` | inc/bounded_vector.h:848-851 | `size()` is the number of elements and is at most `capacity()`. |
| `BoundedVectors.BoundedVector.Empty` | inc/bounded_vector.h:899-902 | `empty()` holds iff there are no elements. |
| `BoundedVectors.BoundedVector.At` | inc/bounded_vector.h:774-792 | The corrected `at`: out_of_range iff `pos >= size()`, and otherwise the element at `pos`. |
| `BoundedVectors.BoundedVector.PushBack` | inc/bounded_vector.h:853-877 | Below capacity the element is appended and earlier elements are unchanged. At capacity it gives runtime_error and neither the contents nor the slots change. |
| `BoundedVectors.BoundedVector.EmplaceBack` | inc/bounded_vector.h:879-891 | Same contract as `push_back`. |
| `BoundedVectors.BoundedVector.PopBack` | inc/bounded_vector.h:893-897 | On a non-empty vector it drops exactly the last element. |
| `BoundedVectors.BoundedVector.Reset` | inc/bounded_vector.h:1081-1087 | The `pop_back` loop empties the vector. |
| `BoundedVectors.BoundedVector.Clear` | inc/bounded_vector.h:804-807 | `clear()` empties the vector. |
| `BoundedVectors.BoundedVector.Emplace` | inc/bounded_vector.h:956-982 | Below capacity, the `iter_swap` walk gives the old contents with the new element inserted at `pos` and the rest shifted up in order. The returned iterator is `pos`, which names the new element. At capacity it gives runtime_error and the slots are unchanged. |
| `BoundedVectors.BoundedVector.Erase` | inc/bounded_vector.h:984-1007 | The corrected `erase`: the contents lose exactly the element at `pos`, and later elements keep their order. The returned iterator is `pos`, which now names the element after the erased one, or `end()`. |
| `BoundedVectors.BoundedVector.Equal` | inc/bounded_vector.h:1036-1063 | The early-exit loop returns true iff the two vectors have equal contents: the same size and the same elements. |
| `BoundedVectors.BoundedVector.NotEqual` | inc/bounded_vector.h:1065-1068 | `!=` holds iff the contents differ. |
| `BoundedVectors.AtSlotAsWritten` | inc/bounded_vector.h:776-781 | As written, `at(pos)` reads slot `pos` whenever `pos <= size()`. |
| `BoundedVectors.AtAsWrittenReadsEnd` | inc/bounded_vector.h:776-781 | As written, `at(size())` is accepted and reads the end slot. On a full vector that slot is past the array. |
| `BoundedVectors.SwapSlots` | inc/bounded_vector.h:998 | `iter_swap` exchanges two slots and changes no other slot. |
| `BoundedVectors.WalkUpMoves` | inc/bounded_vector.h:996-1001 | The `erase` walk moves slot `m` to `n - 1`, shifts the slots between down by one, and leaves the rest alone. |
| `BoundedVectors.EraseAsWritten` | inc/bounded_vector.h:984-1007 | `erase` as written needs a slot past the array exactly when the vector is full. |
| `BoundedVectors.EraseAsWrittenFullOverruns` | inc/bounded_vector.h:1003 | On a full vector, the closing swap of `erase` as written goes past the array. |
| `BoundedVectors.EraseAsWrittenLeaks` | inc/bounded_vector.h:1003-1004 | Below capacity, `erase` as written moves the erased element into the `end()` slot, where it stays alive. `pop_back` then destroys raw storage instead. |
| `BoundedStacks.BoundedStack.constructor` | inc/bounded_stack.h:46-50 | A new stack is empty. |
| `BoundedStacks.BoundedStack.FromContainer` | inc/bounded_stack.h:52-62 | The stack copies the container's slots, but the cursor starts at the bottom, so the stack is empty. |
| `BoundedStacks.BoundedStack.Size` | inc/bounded_stack.h:178-181 | `size()` is the number of stacked elements and is at most the capacity. |
| `BoundedStacks.BoundedStack.Empty` | inc/bounded_stack.h:127-130 | `empty()` holds iff the size is 0, iff there are no elements. |
| `BoundedStacks.BoundedStack.IsFull` | inc/bounded_stack.h:137-140 | `is_full()` holds iff `size() == capacity()`. |
| `BoundedStacks.BoundedStack.Push` | inc/bounded_stack.h:156-176 | A full stack gives runtime_error and nothing changes. Otherwise the value goes on top and the size grows by one. |
| `BoundedStacks.BoundedStack.Emplace` | inc/bounded_stack.h:115-125 | Same contract as `push`. |
| `BoundedStacks.BoundedStack.Pop` | inc/bounded_stack.h:147-154 | A no-op on an empty stack. Otherwise it removes exactly the most recently pushed element. |
| `BoundedHashMaps.ComputeIndex` | inc/bounded_hash_map.h:589-603 | The home slot is below the capacity and equals `hash % Capacity`, in both the mask branch and the remainder branch. |
| `BoundedHashMaps.FirstFree` | inc/bounded_hash_map.h:491-494 | The probe stops at the first unused slot at or after the home slot, or at the end when there is none. |
| `BoundedHashMaps.FirstFreeUnique` | inc/bounded_hash_map.h:491-494 | Any index with the stopping properties is the probe's result. |
| `BoundedHashMaps.InsertedFrame` | inc/bounded_hash_map.h:497-505 | The insert fails iff every slot from home to the end is in use. On success only the chosen slot changes, and it now holds the pair. |
| `BoundedHashMaps.InsertKeepsDuplicates` | inc/bounded_hash_map.h:488-508 | Inserting a key already stored puts a second copy in a different slot. |
| `BoundedHashMaps.ProbeReadsPastEndAsWritten` | inc/bounded_hash_map.h:491-494 | As written, the probe loop reads the slot at index Capacity when every slot from home on is in use. |
| `BoundedHashMaps.BoundedHashMap.constructor` | inc/bounded_hash_map.h:447-451 | A new table has every slot unused. |
| `BoundedHashMaps.BoundedHashMap.Insert` | inc/bounded_hash_map.h:488-530 | `insert` returns the first free slot from home on and true, or the end and false. The array becomes exactly `Inserted`. |
| `Bits.Add32` | inc/guid_generator.h:13 | `uint32_t` addition is the sum reduced modulo 2^32. |
| `Bits.MaskIsModulo` | inc/bounded_hash_map.h:593-596 | For a power-of-two capacity c, `h & (c - 1) == h % c`. |
| `Bits.Pow2IsPowerOfTwo` | inc/bounded_hash_map.h:583-587 | Every power of two passes the `(c & (c - 1)) == 0` test. |
| `Bits.PowerOfTwoIsPow2` | inc/bounded_hash_map.h:583-587 | Every positive c passing the test is a power of two. |
| `Bits.AndAtMostMask` | inc/hash_map.h:337 | Masking never yields more than the mask. |
| `HashMaps.GetIndex` | inc/hash_map.h:334-338 | `get_index` is below `MaxNumBuckets`. It equals `hash % MaxNumBuckets` when the count is a power of two. |
| `HashMaps.MaskSkipsBucket` | inc/hash_map.h:334-338 | For every bucket count that is not a power of two, it returns a bucket below the count that `get_index` never yields for any hash. |
| `HashMaps.MaskReachesEveryBucket` | inc/hash_map.h:334-338 | The converse: with a power-of-two count, hash b lands in bucket b, so every bucket is reachable. |
| `HashMaps.ThreeBucketsSkipOne` | inc/hash_map.h:337 | With 3 buckets, no hash reaches bucket 1. |
| `HashMaps.FirstMatch` | inc/hash_map.h:243-261 | The scan's stopping position: every earlier pair has a different key, and the pair there has the key, if it exists. |
| `HashMaps.FirstMatchUnique` | inc/hash_map.h:255-261 | Any position with the stopping properties is the scan's result. |
| `HashMaps.HashMap.constructor` | inc/hash_map.h:208 | A new table has every bucket empty. |
| `HashMaps.HashMap.Insert` | inc/hash_map.h:320-330 | `insert` appends the pair to the end of bucket `get_index(key)` and leaves every other bucket unchanged, with no deduplication. |
| `HashMaps.HashMap.Find` | inc/hash_map.h:236-276 | `find` looks only in bucket `get_index(key)`. It yields the first pair with an equal key, or `end()` when there is none or the bucket is empty. |
| `HashMaps.InsertThenFirstMatch` | inc/hash_map.h:320-324 | After inserting a key already in the bucket, `find` still yields its first copy. |
| `HashMaps.BucketReadsPastEndAsWritten` | inc/hash_map.h:258-261 | When the key is absent, the bucket loop as written reads the pair at the bucket's end. |
| `Messaging.NewEntry` | inc/MessageManager.h:35-51 | A new entry has zero acknowledgements and zero failures, plus the given targets and payload. |
| `Messaging.Report` | inc/MessageManager.h:55-67 | SUCCESS adds one to the acknowledgements only, and FAILURE to the failures only, wrapping as `uint32_t`. Targets and payload are kept. |
| `Messaging.ReportAllCounts` | inc/MessageManager.h:164-182 | Below 2^32 reports, each counter equals the number of reports of its kind, and the targets and payload are unchanged. |
| `Messaging.WaitOutcome` | inc/MessageManager.h:78-93 | The corrected wait: timeout iff fewer responses than needed have arrived. Once resolved, success iff the acknowledgements reach the threshold, else failure. |
| `Messaging.WaitOutcomeAsWritten` | inc/MessageManager.h:78-94 | The wait as written times out iff its inverted predicate is false. |
| `Messaging.WaitAsWrittenInverted` | inc/MessageManager.h:79 | The inverted predicate gives failure for a fresh entry that needs two responses, and timeout after two acknowledgements, where success is due. |
| `Messaging.ClassifyAfterReports` | inc/MessageManager.h:78-93 | A registered message's outcome after any report sequence: timeout iff there are fewer reports than needed, else success iff the successes reach the threshold. |
| `Messaging.MessageManager.constructor` | inc/MessageManager.h:113 | A new manager has an empty table. |
| `Messaging.MessageManager.RegisterMessage` | inc/MessageManager.h:126-143 | Returns true and adds a fresh entry iff the key was absent. Otherwise the existing entry is untouched. |
| `Messaging.MessageManager.RegisterMessageAllNeeded` | inc/MessageManager.h:121-124 | The three-argument form uses the number of needed responses as the success threshold. |
| `Messaging.MessageManager.TryRetrieveMessage` | inc/MessageManager.h:145-156 | Returns true with the stored payload iff the key exists. Otherwise the output keeps its value. The table is not touched. |
| `Messaging.MessageManager.UpdateMessageStatus` | inc/MessageManager.h:158-184 | A known key's entry is replaced by `Report` of it. An unknown key leaves the table unchanged. |
| `Messaging.MessageManager.RemoveMessage` | inc/MessageManager.h:186-193 | The key is removed if present, and nothing else changes. |
| `Messaging.MessageManager.WaitOnMessage` | inc/MessageManager.h:195-207 | An absent key gives MSG_FAILURE. A present key gives the entry's wait outcome. |
| `SafeCompare.MakeUnsigned` | inc/safe_compare.h:10-11 | `make_unsigned_t` conversion keeps non-negative values and adds 2^bits to negative ones. |
| `SafeCompare.CmpEqual` | inc/safe_compare.h:7-25 | `cmp_equal` holds iff the values are equal as integers, for any signedness and width. |
| `SafeCompare.CmpNotEqual` | inc/safe_compare.h:27-31 | `cmp_not_equal` holds iff the values differ. |
| `SafeCompare.CmpLess` | inc/safe_compare.h:33-51 | `cmp_less` holds iff `t < u` as integers. |
| `SafeCompare.CmpGreater` | inc/safe_compare.h:53-57 | `cmp_greater` holds iff `t > u`. |
| `SafeCompare.CmpLessEqual` | inc/safe_compare.h:59-63 | `cmp_less_equal` holds iff `t <= u`. |
| `SafeCompare.CmpGreaterEqual` | inc/safe_compare.h:65-69 | `cmp_greater_equal` holds iff `t >= u`. |
| `SafeCompare.Trichotomy` | inc/safe_compare.h:7-57 | Exactly one of less, equal and greater holds. |
| `SafeCompare.NegativeBelowUnsigned` | inc/safe_compare.h:17-24 | A negative signed value is less than, and never equal to, any unsigned value. |
| `SafeCompare.BuiltinLessDiffers` | inc/safe_compare.h:43-46 | The built-in `<` after conversion says false where `cmp_less` says true: a negative value against a small unsigned one. |
| `SafeTypes.Add` | inc/ntl_safetype.h:164-168 | `+` gives overflow_error iff the sum exceeds max, and otherwise the exact sum. |
| `SafeTypes.Sub` | inc/ntl_safetype.h:170-174 | `-` gives overflow_error iff `rhs > lhs`, and otherwise the exact difference. |
| `SafeTypes.DivBoundIsProductBound` | inc/ntl_safetype.h:176-180 | The check `max / b >= a` is exactly `a * b <= max`, for b > 0. |
| `SafeTypes.Mul` | inc/ntl_safetype.h:176-180 | The corrected `*`: overflow_error iff the product exceeds max, otherwise the exact product, with 0 for a zero operand. |
| `SafeTypes.MulAsWrittenDividesByZero` | inc/ntl_safetype.h:178 | `*` as written divides by zero for `rhs == 0` and agrees with `Mul` on every other input. |
| `SafeTypes.Div` | inc/ntl_safetype.h:182-185 | `/` is truncating division: `r * rhs <= lhs < (r + 1) * rhs`. |
| `SafeTypes.StrongType.constructor` | inc/ntl_safetype.h:68-71 | The wrapper holds the value it was built with. |
| `SafeTypes.StrongType.Value` | inc/ntl_safetype.h:97-100 | `value()` is a value of the type. |
| `SafeTypes.StrongType.AddAssign` | inc/ntl_safetype.h:102-107 | `+=` succeeds iff `+` does and then stores its result. On failure the value is unchanged. |
| `SafeTypes.StrongType.SubAssign` | inc/ntl_safetype.h:109-114 | `-=` follows `-` in the same way. |
| `SafeTypes.StrongType.MulAssign` | inc/ntl_safetype.h:116-121 | The corrected `*=` follows the corrected `*` in the same way, so `x *= 0` stores 0. |
| `SafeTypes.StrongType.MulAssignAsWritten` | inc/ntl_safetype.h:116-121 | `*=` as written follows `*` as written: `x *= 0` fails with a division by zero and leaves the value unchanged. |
| `SafeTypes.StrongType.DivAssign` | inc/ntl_safetype.h:123-128 | `/=` keeps its check as written: overflow_error iff the divisor exceeds the value, otherwise the truncated quotient. |
| `SafeTypes.StrongType.PostIncrement` | inc/ntl_safetype.h:130-137 | Postfix `++` fails iff value == max. Otherwise it returns the old value and adds one. |
| `SafeTypes.StrongType.PreIncrement` | inc/ntl_safetype.h:139-145 | Prefix `++` fails iff value == max. Otherwise it adds one and returns the new value. |
| `SafeTypes.StrongType.PostDecrement` | inc/ntl_safetype.h:147-154 | Postfix `--` fails iff value == 0. Otherwise it returns the old value and subtracts one. |
| `SafeTypes.StrongType.PreDecrement` | inc/ntl_safetype.h:156-162 | Prefix `--` fails iff value == 0. Otherwise it subtracts one and returns the new value. |
| `SafeTypes.AddSubInverse` | inc/ntl_safetype.h:164-174 | A successful `+` is undone by `-`, and a successful `-` by `+`. |
| `StringViews.CLength` | inc/ntl_string_view.h:189-193 | `Traits::length` counts the characters before the first NUL. |
| `StringViews.Empty` | inc/ntl_string_view.h:175-179 | The default view shows no characters. |
| `StringViews.FromPointer` | inc/ntl_string_view.h:183-187 | `(s, count)` shows the `count` characters at `s`. |
| `StringViews.FromCString` | inc/ntl_string_view.h:189-193 | `(s)` shows the characters of the C string, without its terminator. |
| `StringViews.Size` | inc/ntl_string_view.h:267-270 | `size()` is the number of characters shown. |
| `StringViews.IsEmpty` | inc/ntl_string_view.h:277-280 | `empty()` holds iff `size() == 0`, iff no characters are shown. |
| `StringViews.Front` | inc/ntl_string_view.h:252-255 | `front()` is the first character. |
| `StringViews.Back` | inc/ntl_string_view.h:257-260 | `back()` is the last character. |
| `StringViews.At` | inc/ntl_string_view.h:242-250 | The corrected `at`: out_of_range iff `pos >= size()`, and otherwise the character at `pos`. |
| `StringViews.AtAsWritten` | inc/ntl_string_view.h:242-250 | `at` as written throws iff `pos >= size()`. |
| `StringViews.AtAsWrittenReadsPastView` | inc/ntl_string_view.h:249 | `at(0)` as written on "ab" reads past the array, and on the first two characters of "abc" it yields 'c'. |
| `StringViews.Substr` | inc/ntl_string_view.h:303-311 | out_of_range iff `pos > size()`. Otherwise a view of `min(count, size() - pos)` characters starting at `pos`. |
| `StringViews.CompareChars` | inc/ntl_string_view.h:313-343 | The reference three-way result: 0 iff equal, -1 iff lexicographically less, 1 iff greater. |
| `StringViews.Compare` | inc/ntl_string_view.h:313-343 | `compare(v)` equals lexicographic order on the characters. On an equal common prefix, the shorter view is smaller. |
| `StringViews.TraitsCompareLex` | inc/ntl_string_view.h:317-322 | `char_traits::compare` over the common length agrees with lexicographic order. |
| `StringViews.CommonPrefixLex` | inc/ntl_string_view.h:322-336 | With an equal common prefix, the lengths decide. |
| `StringViews.CompareSub` | inc/ntl_string_view.h:345-348 | `compare(pos1, count1, v)` is `substr(pos1, count1).compare(v)`, and out_of_range iff `pos1 > size()`. |
| `StringViews.CompareSubSub` | inc/ntl_string_view.h:350-353 | `compare(pos1, count1, v, pos2, count2)` compares the two substrings, and out_of_range iff either position is too large. |
| `StringViews.CompareCString` | inc/ntl_string_view.h:355-358 | `compare(s)` compares with the C string's characters. |
| `StringViews.CompareSubCString` | inc/ntl_string_view.h:360-363 | `compare(pos1, count1, s)` compares the substring with the C string. |
| `StringViews.CompareSubPointer` | inc/ntl_string_view.h:365-368 | `compare(pos1, count1, s, count2)` compares the substring with `count2` characters at `s`. |
| `StringViews.StartsWith` | inc/ntl_string_view.h:370-374 | `starts_with(sv)` holds iff sv is a prefix. |
| `StringViews.StartsWithChar` | inc/ntl_string_view.h:376-385 | False on an empty view. Otherwise it holds iff the front character is c. |
| `StringViews.StartsWithCString` | inc/ntl_string_view.h:387-390 | Holds iff the C string is a prefix. |
| `StringViews.EndsWith` | inc/ntl_string_view.h:392-401 | `ends_with(sv)` holds iff sv is a suffix, which is false when sv is longer. |
| `StringViews.EndsWithChar` | inc/ntl_string_view.h:403-412 | False on an empty view. Otherwise it holds iff the back character is c. |
| `StringViews.EndsWithCString` | inc/ntl_string_view.h:414-417 | Holds iff the C string is a suffix. |
| `StringViews.RemovePrefixAsWrittenOverruns` | inc/ntl_string_view.h:282-285 | `remove_prefix` as written keeps the size, so a view that ends at its array's end then runs past it. |
| `StringViews.StringView.constructor` | inc/ntl_string_view.h:181 | A copied view shows what it was given. |
| `StringViews.StringView.RemovePrefix` | inc/ntl_string_view.h:282-285 | The corrected `remove_prefix(n)`: the start moves by n, the size drops by n, and the view shows the old characters minus the first n. |
| `StringViews.StringView.RemoveSuffix` | inc/ntl_string_view.h:287-290 | The size drops by n and the start stays. The view shows the old characters minus the last n. |
| `StringViews.StringView.Swap` | inc/ntl_string_view.h:292-296 | The two views exchange pointer and size. |
| `Strings.LowerChar` | inc/ntl_strings.h:12 | C-locale `tolower`: 'A'..'Z' go to 'a'..'z', every other character is unchanged, and no uppercase letter results. |
| `Strings.ToLower` | inc/ntl_strings.h:8-14 | Same length as the input, and each character is `tolower` of the input's character. |
| `Strings.ToLowerIdempotent` | inc/ntl_strings.h:12 | The result holds no uppercase letter, and lower-casing it again changes nothing. |
| `Strings.ToLowerEqualIff` | inc/ntl_strings.h:12 | Two strings give the same result iff they agree character by character up to case. |
| `CsvParsing.FindFirst` | inc/csv_parser.h:156 | `find_first_of(c)` gives the index of the first c, or the length when there is none. |
| `CsvParsing.StripComment` | inc/csv_parser.h:156-160 | The result is the text before the first '#', and the whole line when there is no '#'. |
| `CsvParsing.Getline` | inc/csv_parser.h:100 | `getline(strm, cell, delim)` fails only at the end. Otherwise the cell is the text up to the next delimiter, and reading resumes after it. |
| `CsvParsing.ReadElements` | inc/csv_parser.h:110-120 | `read_elements` yields one value per column. |
| `CsvParsing.SplitPiecesNoDelim` | inc/csv_parser.h:97-108 | No split piece contains the delimiter. |
| `CsvParsing.JoinSplit` | inc/csv_parser.h:97-108 | Joining the pieces with the delimiter gives back the line. |
| `CsvParsing.GetlineCellsSplit` | inc/csv_parser.h:97-108 | Successive getline cells are the delimiter-separated pieces of the line. The exceptions: an empty line yields no cell, and no empty cell follows a final delimiter. |
| `CsvParsing.ReadElementsCells` | inc/csv_parser.h:97-120 | Column i holds the i-th getline cell. Columns beyond the available cells keep their default value. |
| `CsvParsing.Row` | inc/csv_parser.h:69-73 | A row has one entry per column. |
| `CsvParsing.Kept` | inc/csv_parser.h:154-166 | The kept lines, in file order, are non-empty and contain no '#'. |
| `CsvParsing.KeptEmpty` | inc/csv_parser.h:154-166 | A file yields no rows iff every line is blank after comment stripping. |
| `CsvParsing.Rows` | inc/csv_parser.h:154-166 | There is one row per kept line, in order. |
| `CsvParsing.SkipSpace` | inc/csv_parser.h:32 | `>>` skips exactly the leading whitespace. |
| `CsvParsing.TakeWord` | inc/csv_parser.h:32 | The word runs up to the first whitespace character. |
| `CsvParsing.ExtractWord` | inc/csv_parser.h:31-32 | The extracted word holds no whitespace. |
| `CsvParsing.ParseBool` | inc/csv_parser.h:29-54 | true iff the word lower-cases to "true", false iff it lower-cases to "false". Any other word goes to the numeric fallback. |
| `CsvParsing.ParseBoolPadded` | inc/csv_parser.h:31-43 | A cell reading "true" or "false" in any case, with whitespace around it, parses to that value. |
| `CsvParsing.ParseBoolUpperTrue` | inc/csv_parser.h:33-38 | " TRUE " parses to true. |
| `CsvParsing.ParseBoolMixedFalse` | inc/csv_parser.h:40-43 | "False" parses to false. |
| `CsvParsing.CsvParser.constructor` | inc/csv_parser.h:148-167 | The getline loop builds exactly `Rows(lines)`: comments are cut, blank lines skipped, and there is one row per other line, in order. |
| `CsvParsing.CsvParser.At` | inc/csv_parser.h:174-182 | `at(idx)` gives out_of_range iff idx is at least the number of rows, and otherwise row idx. |
| `CsvParsing.Open` | inc/csv_parser.h:148-171 | A file that fails to open gives runtime_error. Otherwise the parser holds the file's rows. |
| `CsvParsing.OpenDefault` | inc/csv_parser.h:143-146 | The one-argument constructor uses ','. |
| `Algorithms.LowerBound` | inc/ntl_algorithm.h:16 | The bisection returns the partition point within its window. |
| `Algorithms.BinaryFindBy` | inc/ntl_algorithm.h:13-18 | With `comp`, every element before the result compares less than the value, and none from the result on does. |
| `Algorithms.BinaryFind` | inc/ntl_algorithm.h:6-11 | On a range partitioned as `equal_range` requires, elements before the result are `< value` and elements from it on are `>= value`. |
| `Algorithms.SortedIsReady` | inc/ntl_algorithm.h:6-11 | A sorted range meets `equal_range`'s precondition for every value. An unsorted range can meet it too: [0, 2, 1, 5, 4] with value 3. |
| `Algorithms.PartitionPointUnique` | inc/ntl_algorithm.h:13-18 | Any index with the two partition properties is the result. |
| `Algorithms.BinaryFindEnd` | inc/ntl_algorithm.h:9-10 | The result is `end` iff every element is `< value`. |
| `Algorithms.BinaryFindMembership` | inc/ntl_algorithm.h:6-11 | The result points at the value iff the value is present, and then at its first occurrence. |
| `Algorithms.BinaryFindAbsent` | inc/ntl_algorithm.h:9-10 | It is not a membership test: searching [1, 3] for 2 gives index 1. |
| `Finding.FirstWhere` | inc/ntl_find.h:61 | `std::find_if` gives the first position satisfying `cond`, or `end`. |
| `Finding.FindIf` | inc/ntl_find.h:58-63 | found iff `itr != end`, iff some element satisfies `cond`. Then `itr` is the first such element, and otherwise `itr == end`. |
| `Finding.Find` | inc/ntl_find.h:65-70 | found iff the element occurs in the range. Then `itr` is its first occurrence, and otherwise `end`. |
| `Finding.FindIfUnique` | inc/ntl_find.h:61 | The first-match properties determine the iterator. |
| `Finding.FindKey` | inc/ntl_find.h:72-84 | For a map: found iff the key is stored, iff the iterator is not `end()`. |
| `Finding.FindIn` | inc/ntl_find.h:86-90 | For another container: the range search over the whole container. |
| `IteratorUtils.Filter` | inc/iterator_utils.h:9-18 | Every kept element satisfies `func`, and no more elements are kept than were input. |
| `IteratorUtils.FilterMembers` | inc/iterator_utils.h:11-15 | An element is kept iff it is in the input and satisfies `func`. |
| `IteratorUtils.FilterAppend` | inc/iterator_utils.h:9-18 | Filtering preserves order: filtering a concatenation filters each part. |
| `IteratorUtils.FilterAllOrNone` | inc/iterator_utils.h:11-15 | All elements are kept when all satisfy `func`, and none when none do. |
| `IteratorUtils.Select` | inc/iterator_utils.h:6-19 | The output array receives exactly `Filter(input)` from `insertAt` on, and every other slot is unchanged. The input is read only. |
| `IteratorUtils.FindAndExecuteInMap` | inc/iterator_utils.h:21-31 | `func` is called once, with the iterator at the key, iff the key is present, and never otherwise. |
| `IteratorUtils.FindAndExecuteInRange` | inc/iterator_utils.h:33-44 | `func` is called at most once: on the first element matching `keyFunc`, or not at all iff none matches. |
| `UninitializedStorage.Storage.constructor` | inc/uninitialized_storage.h:29-32 | A default storage is not initialised. |
| `UninitializedStorage.Storage.WithValue` | inc/uninitialized_storage.h:34-39 | The allocator-constructing constructor leaves the storage initialised with the object. |
| `UninitializedStorage.Storage.AsPointer` | inc/uninitialized_storage.h:41-59 | bad_storage_access iff the storage is not initialised, and otherwise the stored object. |
| `UninitializedStorage.Storage.Construct` | inc/uninitialized_storage.h:81-96 | true iff the object's constructor returns, and then the object is stored and the flag set. On a throw, nothing changes. |
| `UninitializedStorage.Storage.Destroy` | inc/uninitialized_storage.h:98-116 | Clears the flag and returns true unless a destructor throws. On an uninitialised storage it is a no-op returning true. |
| `UninitializedStorage.ConstructThenDestroy` | inc/uninitialized_storage.h:41-116 | After `construct`, `as_pointer` yields the object. After `destroy`, it fails again. |
| `ObserverPtrs.ObserverPtr.constructor` | inc/observer_ptr.h:18-26 | Default and nullptr construction give a null pointer. |
| `ObserverPtrs.ObserverPtr.FromPointer` | inc/observer_ptr.h:28-31 | `get()` returns the pointer given at construction. The new pointer compares equal exactly to the pointers that observe the same address. |
| `ObserverPtrs.ObserverPtr.FromOther` | inc/observer_ptr.h:33-37 | The converting constructor observes what the other observes. |
| `ObserverPtrs.ObserverPtr.Release` | inc/observer_ptr.h:84-89 | `release()` returns the previous pointer and leaves the pointer null, so it compares equal to `nullptr`. |
| `ObserverPtrs.ObserverPtr.Reset` | inc/observer_ptr.h:91-94 | `reset(p)` stores p, and null when called with no argument. Afterwards the pointer compares equal exactly to the pointers observing p. |
| `ObserverPtrs.NotEqual` | inc/observer_ptr.h:123-127 | `!=` holds iff they differ. |
| `ObserverPtrs.EqualNull` | inc/observer_ptr.h:129-139 | `p == nullptr` holds iff p is null. |
| `ObserverPtrs.NotEqualNull` | inc/observer_ptr.h:141-151 | `p != nullptr` holds iff p is not null. |
| `ObserverPtrs.DerivedOrder` | inc/observer_ptr.h:153-175 | Exactly one of `<`, `==` and `>` holds. `<=` is `<` or `==`, and `>=` is `>` or `==`. |
| `ObserverPtrs.LessStrictOrder` | inc/observer_ptr.h:153-157 | `<` is irreflexive and transitive. |
| `ObserverPtrs.EqualIsEquivalence` | inc/observer_ptr.h:117-151 | `==` is reflexive, symmetric and transitive. Pointers that compare equal agree on `== nullptr`. |
| `ObserverPtrs.NullTests` | inc/observer_ptr.h:69-72 | `p == nullptr` is the negation of `operator bool`, and `p != nullptr` is the negation of `p == nullptr`. |
| `ObserverPtrs.ReleaseThenReset` | inc/observer_ptr.h:84-94 | `reset(release())` restores the observed pointer. |
| `GuidGenerators.Ids` | inc/guid_generator.h:11-14 | n calls return n identifiers. |
| `GuidGenerators.IdsConsecutive` | inc/guid_generator.h:13 | For every i, the i-th call returns `start + i` modulo 2^32. |
| `GuidGenerators.IdsDistinct` | inc/guid_generator.h:11-14 | Up to 2^32 successive identifiers are pairwise distinct. |
| `GuidGenerators.IdsWrap` | inc/guid_generator.h:17 | Call number 2^32 + 1 returns the first identifier again: the counter wraps. |
| `GuidGenerators.GuidGenerator.constructor` | inc/guid_generator.h:17 | The counter starts at a given value. Zero is the C++20 value-initialisation; under earlier standards the value is indeterminate. |
| `GuidGenerators.GuidGenerator.GenerateUniqueId` | inc/guid_generator.h:11-14 | Returns the counter's old value, and the counter advances by one with `uint32_t` wrap-around. |
| `GuidGenerators.GuidGenerator.GenerateMany` | inc/guid_generator.h:11-14 | n calls return exactly `Ids(start, n)` and leave the counter one past the last identifier. |

## Left out

- Concurrency.
  - The reader-writer lock, the task pool and the concurrent queue are not modelled.
  - `MessageManager`'s mutexes, condition variables and timed `wait_for` are not modelled either. The wait is its resolution test on the current counters, as if no other thread could report during it.
  - The unfinished control-block pool of `MessageManager` is not modelled; its constructor refers to undefined names.
  - Atomic fields are plain fields.
- With exceptions disabled, `NTL_THROW` and `NTL_THROW_OR_ABORT` abort the program. The model always takes the throwing configuration and returns the exception as a value.
- `uninitialized_storage::as_pointer` is `noexcept`, so its throw would terminate. `AsPointer` returns the error instead.
- Allocators, placement construction and raw slot storage.
  - Slots hold plain values.
  - `construct` and `destroy` throwing are parameters of `Storage.Construct` and `Storage.Destroy`.
  - Destruction is not observable, except in the slot model behind `BoundedVectors.EraseAsWritten`.
- Typed CSV cells are left out.
  - Cells are kept as their text (`ReadElements`).
  - Conversion through `operator>>` for non-bool columns is left out. So is the numeric fallback of the bool formatter, which `ParseBool` only marks as `NumericFallback`.
  - Opening a file is the `Option` argument of `Open`.
- Known-broken code is not modelled: the following are not part of this model.
  - `bounded_vector::insert` swaps iterators.
  - `bounded_vector::erase(first, last)`.
  - Reverse iterators.
  - `bounded_queue::back`, which reads the free slot.
  - `bounded_stack::top`, which reads one past the top; its copy and move operations do not compile.
  - `bounded_hash_map::find`, `erase` and its iterators.
  - `hash_map`'s iterator increment.
  - `string_view::find`, `copy` and `contains`.
  - `observer_ptr::swap`, which passes the whole `observer_ptr` to `std::swap`.
- `BoundedVectors.BoundedVector.Emplace` requires `pos < size()`. As written, the walk loop never stops when `pos == end()`.
- `BoundedStacks.BoundedStack.Pop` only moves the cursor. The source destroys the slot at the cursor before decrementing, which is one past the top element. Destruction is not modelled.
- `BoundedQueues.BoundedQueue.Front` requires a non-empty queue. The source reads an empty slot otherwise.
- `HashMaps.HashMap.Find` returns the iterator the code computes. As written, the function returns an undeclared name `itr`, which does not compile.
- `ObserverPtrs.Less` is the address order. As written, `std::less(p1.get(), p2.get())` is not a valid call; `std::less<>{}(a, b)` is evidently meant.
- `StringViews.Compare` uses `size()` where the code writes `size == v.size()`, which does not compile. The narrowing of the common length to `int` is not modelled, so views longer than 2^31 - 1 characters are out of scope.
- `StringViews.StartsWith` compares characters. `basic_string_view` defines no `operator==` of its own.
- `SafeTypes.StrongType.DivAssign` keeps the code's check, which is the subtraction check (see `DivAssign` in the table). Dividing by zero is undefined behaviour and is excluded by its precondition.
- `strong_type` is modelled for unsigned value types only. For signed types, `max - other` with a negative `other` is undefined behaviour. The stream operators are I/O.
- `SafeCompare` takes each operand's signedness and width as a parameter. It does not model C++ integer promotion of types narrower than `int`.
- The `std::map`-based `find_and_execute_fcn` calls `func` with an iterator. The model records the calls made (their arguments), not what `func` does.
- `IteratorUtils.Select` requires the output array to differ from the input and to have room for every write. As written, both are the caller's responsibility.
- The const and non-const overloads of every function share one model.
- Lines that do not compile are modelled as evidently meant.
  - inc/MessageManager.h:151, 168 and 174 write `findItr->second.` on a `std::unique_ptr`. The model reads the entry directly.
  - inc/bounded_hash_map.h:448-449 has no comma between the two member initialisers.
  - inc/bounded_hash_map.h:585 applies `static_assert` to a function parameter. The model keeps the test.
  - inc/hash_map.h:329 calls `std::forward(value)` with no template argument. The model stores the pair.
  - inc/bounded_vector.h:778 and 788 construct `std::out_of_range()`, which has no default constructor. The model returns `OutOfRange`.
- `BoundedQueues.BoundedQueue.constructor` requires a capacity above 0. With a zero-size `std::array`, `push` would write `m_Elems[0]`, which is undefined behaviour.
- `BoundedVectors.BoundedVector.PopBack` requires a non-empty vector. On an empty vector, `pop_back` decrements the cursor before `begin()`, which is undefined behaviour.
- `ObserverPtrs.Less`: `std::less<T*>` is an implementation-defined total order. The model takes address order on naturals, with null as 0, so nothing is promised about where null sits in that order.
- A Dafny `char` stands for one byte, 0..255, in `StringViews` and `Strings`. `char_traits<char>` orders characters as unsigned bytes, and `std::tolower` on a negative `char` is undefined behaviour.
- `GuidGenerators.GuidGenerator.constructor` takes the counter's start as a parameter. Before C++20 the `std::atomic` member starts indeterminate, and the lemmas hold for any start.
- Networking, timers, the file manager, the singleton, RAII, serialisation, byte-swapping, the bitset, the pool allocator, the optional fallback and the other unfinished headers are outside this model.

## Findings

| source | as written | input that shows it | evidently intended | confidence | as-written member | corrected member |
|---|---|---|---|---|---|---|
| inc/bounded_vector.h:776 | `at(pos)` throws only when `pos > size()` | `at(size())` reads the end slot, which holds no element; on a full vector it is past the array | throw when `pos >= size()` | not executed; high | `BoundedVectors.AtAsWrittenReadsEnd` | `BoundedVectors.BoundedVector.At` |
| inc/bounded_vector.h:1003 | after the walk, `erase` swaps the last element's slot with `end()`, then `pop_back` destroys | erasing from a full vector swaps with a slot past the array; below capacity, the erased element stays alive past the end | no closing swap: `pop_back` destroys the erased element, which the walk moved to the last slot | not executed; high | `BoundedVectors.EraseAsWrittenFullOverruns` | `BoundedVectors.BoundedVector.Erase` |
| inc/bounded_hash_map.h:491 | the probe reads `m_DataArray[idx].in_use()` before testing `idx < Capacity` | every slot from home to the end is in use: the loop reads index Capacity | test the bound first | not executed; high | `BoundedHashMaps.ProbeReadsPastEndAsWritten` | `BoundedHashMaps.BoundedHashMap.Insert` |
| inc/hash_map.h:258 | the bucket loop compares `bucket_itr->first` before testing for `end()` | a non-empty bucket without the key: the loop dereferences the bucket's end | test for `end()` first | not executed; high | `HashMaps.BucketReadsPastEndAsWritten` | `HashMaps.HashMap.Find` |
| inc/MessageManager.h:79 | the wait predicate is `needed > acks + failures`, and the function never returns its result | an entry needing 2 responses: failure at once; after 2 acknowledgements, timeout | resolve when `acks + failures >= needed`, and return the result | not executed; high | `Messaging.WaitAsWrittenInverted` | `Messaging.WaitOutcome` |
| inc/ntl_safetype.h:178 | the check of `*` computes `max / rhs` | `a * b` with `b == 0` divides by zero, though the product 0 fits | treat a zero operand as a product of 0 | not executed; high | `SafeTypes.MulAsWrittenDividesByZero` | `SafeTypes.Mul` |
| inc/ntl_safetype.h:118 | the check of `*=` computes `max / other.m_Value` | `x *= 0` divides by zero, though the product 0 fits | treat a zero operand as a product of 0 | not executed; high | `SafeTypes.StrongType.MulAssignAsWritten` | `SafeTypes.StrongType.MulAssign` |
| inc/ntl_string_view.h:249 | `at(pos)` returns `*(m_Ptr + m_Size)` | `at(0)` on the view of "ab" reads past the array; on the first two characters of "abc" it yields 'c' | return `*(m_Ptr + pos)` | not executed; high | `StringViews.AtAsWrittenReadsPastView` | `StringViews.At` |
| inc/ntl_string_view.h:284 | `remove_prefix(n)` moves the pointer but keeps the size | `remove_prefix(1)` on a view reaching the end of its array makes it run past the array | also lower the size by n | not executed; high | `StringViews.RemovePrefixAsWrittenOverruns` | `StringViews.StringView.RemovePrefix` |
