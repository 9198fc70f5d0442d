# bmstu::list in Dafny

`bmstu::list<T>` (`bmstu_list.h`) is a doubly-linked list. Two valueless
sentinel nodes, `head_` and `tail_`, bound the chain of value-carrying
interior nodes, and a `size_` counter records how many interior nodes there
are. The list offers:

- iterators that step one node at a time, throwing at the ends;
- push at either end, insertion after a position, pop of the last value and
  removal of a half-open range;
- an O(1) swap, and construction and assignment by copying into a temporary
  and swapping;
- two reversals: `revers_v`, which swaps values, and `revers_n`, which relinks
  the nodes of a sub-range;
- equality and a hand-written lexicographic `<` together with the operators
  derived from them.

The project has two modules.

- `ListSpec` (`list_spec.dfy`) holds the value-level meaning of the
  operations:
  - `Reverse` and `ReverseRange`, the reversal of a sequence and of one of its
    slices;
  - `SwapOuter`, what `revers_v` computes;
  - `LexLessAsWritten`, what `lexicographical_compare_` computes.

  It also proves the facts relating them: involution, permutation, the
  odd-length case, and what decides a comparison.
- `BmstuList` (`bmstu_list.dfy`) holds the imperative model.
  - `Node` is a class with `prev`, `value` and `next` fields.
  - `List` is a class with the source's fields `head`, `tail` and `size`, and
    two ghost views: `nodes`, the node sequence from `head` to `tail`, and
    `Contents`, the interior values.
  - `Valid()` is the ring invariant. Both sentinels end the chain, every link
    is mirrored (`nodes[i].next == nodes[i+1]` and
    `nodes[i+1].prev == nodes[i]`), `size` is the interior count, and
    `Contents` are the interior values. `LinkedDistinct` proves that no node
    occurs twice.
  - An iterator is the node it refers to. Methods that take an iterator also
    take its ghost position in `nodes`.
  - Every mutator rewires the real fields in the order the C++ code does.
    Each one is proved to keep `Valid()` and to leave `nodes`/`Contents`
    exactly as its contract states.

The throwing paths of `++`, `--`, `insert` and `pop` return `Err(..)` of a
`Result`. In each case the state is left unchanged.

The model follows the code where it and a plain reading of the list's
intent disagree:

- **`revers_v` on even sizes.** Its loop stops as soon as the cursors are
  adjacent. For an even number of values the two middle values are therefore
  never exchanged: {1,2,3,4} becomes {4,2,3,1} (`SwapOuterOfFour`). So
  `revers_v` and `revers_n` over the whole list agree on every list of odd
  size (`ReversalsAgreeOnOdd`). For every even size of 2 or more they differ
  whenever the two middle values differ (`ReversalsDifferOnEven`), e.g. on
  {1,2,3,4} (`ReversalsDifferOnFour`). `revers_v` is still an involution
  and a permutation.
- **`<` on equal lists and prefixes.** When no pair decides, `<` answers
  "did both lists run out together". Equal lists compare `<` as true, and a
  strict prefix is not `<` the longer list
  (`LexLessAsWrittenReflexive`, `LexLessAsWrittenStrictPrefix`). So on equal
  lists `<` and `>` hold while `<=` and `>=` do not.
- **`revers_n`'s size guard.** The guard tests the whole list's `size_`, not
  the range length. On a list with fewer than two values any call returns at
  once, including one on an empty range such as `revers_n(begin(), end())`
  of an empty list.
- **`revers_n` on an empty range otherwise.** With two or more values, on an
  empty range `[it_b, it_b)` the cursors start crossed (`it_e` is `it_h`).
  Then either the loop corrupts the links, or, when `it_b` is `begin()`, the
  condition's `it_e - 1` steps before `head_` and the `noexcept` operator
  terminates the program. `ReverseNodes` therefore accepts an empty
  range only when the size guard returns.
- **The range `revers_n` takes.** At every size, `ReverseNodes` takes a
  forward range `[it_b, it_t)` with `it_b` different from `head_`. With two
  or more values the code needs this: `it_b - 1` would step before `head_`,
  and the `noexcept` operator would terminate the program. With fewer than
  two values the guard returns before that step, so there the model asks
  for more than the code does.
- **The range, initializer-list and copy constructors and `operator=`.**
  Each of these builds a temporary by `push_back` and then swaps with it.
  The model gives the new list the temporary's fields directly. This is what
  the swap leaves in `*this`.

## Model

| member | source | states |
|---|---|---|
| ListSpec.Reverse | bmstu_list.h:343-381 | the reference reversal that revers_n is measured against; same length as its input |
| ListSpec.ReverseRange | bmstu_list.h:343-381 | the slice lo..hi-1 reversed and everything else in place, the effect revers_n has on nodes and values; same length |
| ListSpec.ReverseAt | bmstu_list.h:343-381 | position k of the reversal holds the element at the mirrored position |
| ListSpec.ReverseRangeAt | bmstu_list.h:343-381 | reversing the slice lo..hi-1 puts the mirror element at each position inside it and leaves every other position alone |
| ListSpec.ReverseRangeFromPointwise | bmstu_list.h:352-379 | any sequence that is mirrored inside lo..hi-1 and unchanged outside it is the slice reversal |
| ListSpec.ReverseRangeInvolution | bmstu_list.h:343-381 | reversing the same range twice restores the sequence |
| ListSpec.ReversePermutes | bmstu_list.h:343-381 | a reversal only rearranges the elements (same multiset) |
| ListSpec.SwapOuter | bmstu_list.h:330-340 | what revers_v computes: the outer pair exchanged and the walk continued inward on the rest while more than two values remain; same length |
| ListSpec.SwapOuterAt | bmstu_list.h:336-338 | revers_v mirrors the first and last SwappedPairs(n) = (n-1)/2 values and keeps the rest |
| ListSpec.SwapOuterFromPointwise | bmstu_list.h:336-338 | a sequence with exactly that pointwise shape is SwapOuter of the original |
| ListSpec.SwapOuterOddIsReverse | bmstu_list.h:330-340 | for an odd number of values revers_v is the exact reversal |
| ListSpec.SwapOuterOddAt | bmstu_list.h:336-338 | the same, one position at a time |
| ListSpec.SwapOuterEvenKeepsMiddle | bmstu_list.h:336 | for an even number n >= 2 of values the two middle values keep their places |
| ListSpec.SwapOuterOfFour | bmstu_list.h:336 | {1,2,3,4} becomes {4,2,3,1}, which is not the reversal |
| ListSpec.WholeRangeIsReverse | bmstu_list.h:343-381 | revers_n over the whole interior is the plain reversal |
| ListSpec.ReversalsAgreeOnOdd | bmstu_list.h:330-381 | for an odd number of values both reversals leave the same values |
| ListSpec.ReversalsDifferOnEven | bmstu_list.h:330-381 | for every even number of 2 or more values whose two middle values differ, the two reversals leave different values |
| ListSpec.ReversalsDifferOnFour | bmstu_list.h:330-381 | for {1,2,3,4} the two reversals leave different values |
| ListSpec.SwapOuterInvolution | bmstu_list.h:330-340 | revers_v twice restores the values |
| ListSpec.SwapOuterPermutes | bmstu_list.h:330-340 | revers_v only rearranges the values (same multiset) |
| ListSpec.LexLessAsWritten | bmstu_list.h:441-452 | what lexicographical_compare_ computes: the first pair with one value below the other decides, and with none the answer is whether both ran out together |
| ListSpec.LexLessAfterTie | bmstu_list.h:443-450 | after k pairs neither of which is below the other, `<` is decided by the remainders |
| ListSpec.FirstMismatchDecides | bmstu_list.h:444-449 | the first pair with one value below the other decides `<`, in that pair's direction |
| ListSpec.NoMismatchComparesLengths | bmstu_list.h:451 | with no deciding pair, `<` holds exactly when both lists have the same length |
| ListSpec.LexLessAsWrittenReflexive | bmstu_list.h:441-452 | for an irreflexive element order every list is `<` itself |
| ListSpec.LexLessAsWrittenStrictPrefix | bmstu_list.h:441-452 | a strict prefix is not `<` the longer list |
| ListSpec.LexLessAsWrittenExamples | bmstu_list.h:441-452 | {1,2,3} < {1,2,4}; {1,2} is not < {1,2,3}; {1,2,3} < {1,2,3} |
| BmstuList.Node.Sentinel | bmstu_list.h:8 | a default node has null links |
| BmstuList.Node.constructor | bmstu_list.h:10 | the three-argument node holds exactly the given links and value |
| BmstuList.Linked | bmstu_list.h:7-17 | a node chain starting at a node with null prev and ending at one with null next, every next link mirrored by the following node's prev link |
| BmstuList.Holds | bmstu_list.h:14 | the values of the interior nodes of a chain, in order |
| BmstuList.List.Valid | bmstu_list.h:454-456 | the ring invariant: `nodes` is linked from head to tail, size is the number of interior nodes, and Contents are their values |
| BmstuList.LinkedApart | bmstu_list.h:15-16 | in a chain whose links mirror each other no node occurs at two positions |
| BmstuList.LinkedOnlyAt | bmstu_list.h:15-16 | the node at position i of a linked chain occurs nowhere else |
| BmstuList.LinkedDistinct | bmstu_list.h:15-16 | every node of a linked chain, and so of a valid list, occurs once |
| BmstuList.HoldsInsert | bmstu_list.h:317-323 | inserting a node at position k+1 inserts its value at position k of the contents |
| BmstuList.HoldsCut | bmstu_list.h:398-408 | cutting nodes lo..hi-1 cuts the matching values |
| BmstuList.LinkedSplice | bmstu_list.h:176-192 | replacing a window by a linked run whose borders are relinked keeps the chain linked |
| BmstuList.LinkedSwap | bmstu_list.h:353-367 | exchanging the nodes at two positions keeps the chain linked once the eight links around them follow the new order |
| BmstuList.MirroredStep | bmstu_list.h:352-368 | exchanging the cursor nodes moves the mirrored border of revers_n one step inward |
| BmstuList.MirroredAll | bmstu_list.h:352-379 | once the cursors have met, the node sequence is the range reversal |
| BmstuList.List.SpliceValid | bmstu_list.h:176-192 | after a splice with the borders relinked, the ring invariant holds again |
| BmstuList.List.ReversedValid | bmstu_list.h:343-381 | a linked node sequence that is a range reversal, with the matching contents, satisfies the ring invariant |
| BmstuList.List.constructor | bmstu_list.h:138-141 | two fresh sentinels linked to each other, no values; begin() == end(), and --begin() and --end() land on head |
| BmstuList.List.Empty | bmstu_list.h:194-196 | true exactly when there are no values, and exactly when begin() == end() |
| BmstuList.List.Size | bmstu_list.h:260-262 | the number of values, which is the number of interior nodes |
| BmstuList.List.Begin | bmstu_list.h:228-230 | the node after head (tail on an empty list) |
| BmstuList.List.End | bmstu_list.h:232-234 | the tail sentinel |
| BmstuList.List.Succ | bmstu_list.h:46-53 | ++ fails with OutOfRange at tail and otherwise moves to the next node |
| BmstuList.List.Pred | bmstu_list.h:55-62 | -- fails with OutOfRange at head and otherwise moves to the previous node |
| BmstuList.List.Advance | bmstu_list.h:90-105 | it + n lands n positions further on, or stays for n <= 0 |
| BmstuList.List.Retreat | bmstu_list.h:107-113 | it - n lands n positions back, or stays for n <= 0 |
| BmstuList.List.StepRoundTrip | bmstu_list.h:90-113 | (it + n) - n is it |
| BmstuList.List.RetreatRoundTrip | bmstu_list.h:90-113 | (it - n) + n is it |
| BmstuList.List.At | bmstu_list.h:252-258 | operator[](pos) is the pos-th value, and at pos == size the tail sentinel's payload |
| BmstuList.List.PushBack | bmstu_list.h:176-183 | values become old + [v] through one fresh node before tail; the other nodes stay in order, the sentinels keep their payloads and the invariant holds |
| BmstuList.List.PushFront | bmstu_list.h:185-192 | values become [v] + old through one fresh node after head; the sentinels keep their payloads and the invariant holds |
| BmstuList.List.Insert | bmstu_list.h:313-325 | at tail: InvalidPosition, nothing changes; otherwise one fresh node holding v right after pos, returned, values grow by v at that place; the sentinels keep their payloads |
| BmstuList.List.InsertAfterHead | bmstu_list.h:313-325 | inserting after head gives [v] + old, as push_front does |
| BmstuList.List.Pop | bmstu_list.h:384-395 | on an empty list EmptyContainer and nothing changes; otherwise returns the last value, drops it and its node; the sentinels keep their payloads |
| BmstuList.List.PushPopRoundTrip | bmstu_list.h:384-395 | push_back(v) then pop() returns v and restores nodes and values |
| BmstuList.List.Remove | bmstu_list.h:398-408 | drops exactly the nodes and values of [it_b, it_e), lowers size by their number, leaves the sentinels' payloads; an empty range changes nothing |
| BmstuList.List.Clear | bmstu_list.h:204-216 | back to the empty ring with the same sentinels and their payloads; begin() == end(), and --begin(), --end() land on head |
| BmstuList.List.Swap | bmstu_list.h:218-222 | the two lists exchange sentinels, node sequences and values; both stay valid |
| BmstuList.List.CopyRange | bmstu_list.h:145-150 | a fresh valid list of fresh nodes, holding the values of [first, last); the source is unchanged |
| BmstuList.List.FromRange | bmstu_list.h:143-152 | the new list holds the values of [first, last) in fresh nodes |
| BmstuList.List.FromValues | bmstu_list.h:154-160 | the new list holds the given values in order |
| BmstuList.List.Copy | bmstu_list.h:162-170 | the new list holds other's values in fresh nodes |
| BmstuList.List.Assign | bmstu_list.h:411-420 | afterwards the list holds other's values: in fresh nodes, or untouched on self-assignment |
| BmstuList.List.SwapValues | bmstu_list.h:337 | std::swap(*it_b, *it_e) exchanges the two values |
| BmstuList.List.SwapValuesInward | bmstu_list.h:333-339 | the cursor walk of revers_v turns the values into SwapOuter of the old ones without touching links or the sentinels' payloads |
| BmstuList.List.ReverseValues | bmstu_list.h:330-340 | values become SwapOuter(old values); nodes, every link and the sentinels' payloads stay as they were |
| BmstuList.List.ExchangeApart | bmstu_list.h:353-367 | one step of revers_n's loop exchanges the cursor nodes' positions and keeps the chain linked |
| BmstuList.List.ExchangeAdjacent | bmstu_list.h:370-379 | the final relink exchanges an adjacent cursor pair and keeps the chain linked |
| BmstuList.List.RelinkReversed | bmstu_list.h:347-379 | the cursor walk of revers_n leaves the chain linked in the order of the range reversal |
| BmstuList.List.ReverseNodes | bmstu_list.h:343-381 | nodes and values of [it_b, it_t) are reversed and everything else stays; every node keeps its value; size and sentinels are unchanged; the invariant holds; an empty range is accepted when the size guard returns |
| BmstuList.Equal | bmstu_list.h:264-279 | true exactly when both lists hold the same values |
| BmstuList.NotEqual | bmstu_list.h:281-283 | true exactly when the values differ |
| BmstuList.Less | bmstu_list.h:285-287 | l < r as lexicographical_compare_ computes it |
| BmstuList.Greater | bmstu_list.h:289-291 | l > r is r < l |
| BmstuList.LessOrEqual | bmstu_list.h:293-295 | l <= r is not r < l |
| BmstuList.GreaterOrEqual | bmstu_list.h:297-299 | l >= r is not l < r |

## Left out

- Deallocation: `delete` of nodes in `clear`, `pop`, `remove` and the destructor. Dafny has no manual memory management, so unlinked nodes are simply dropped from `nodes`.
- The destructor (bmstu_list.h:198-202): it only clears and deallocates.
- The move constructor (bmstu_list.h:172-174). It swaps with a list whose sentinels are still null, so the source is left without a valid ring. No valid state results to model.
- `operator+=` and `operator+` (bmstu_list.h:423-436). `push_back` already counts each appended value, and the extra `size_ += other.size_` breaks the size invariant; `l += l` does not terminate. No `Valid()` state results.
- Iterator `+=` and iterator distance (bmstu_list.h:115-126). `+=` returns an advanced copy and leaves the receiver alone, so the distance loop does not terminate unless `begin == end`.
- `operator<<` (bmstu_list.h:301-311): stream output only.
- `operator->`, `operator bool`, iterator copy and assignment, post-increment and post-decrement, the `const_iterator` overloads and `cbegin`/`cend`. They are plain accessors or copies of the modelled operations.
- Advance: iterator `+`/`-` are `noexcept`, so a step past `tail`/`head` would terminate the program. The bound is a precondition rather than a modelled termination. The same bound makes `At` require `pos <= size()`.
- ReverseNodes: on a list with fewer than two values the code returns before it uses its iterators, so any pair is accepted there. The model still requires a forward range with `it_b` not `head_` at that size, because it locates both iterators in the node chain.
- FromRange: the source template accepts any pair of input iterators. The model takes a range `[first, last)` of another valid list, with `first` not `head`. `FromValues` covers construction from an arbitrary sequence of values.
- CopyRange: the shared copy loop, narrowed to ranges of a valid list in the same way as `FromRange`.
- `size_t` and `difference_type` widths: sizes and step counts are unbounded naturals and integers, which is harmless for lists that fit in memory.
- The element type's own `==`, `!=` and `<`. Dafny equality stands for the first two, and a function parameter `lt` stands for `<`.
- Iterator equality is node identity, expressed directly by Dafny reference equality. That iterators of two different lists never compare equal is not stated: the model does not record which list owns a node. The copies here are built from fresh nodes.
- Exceptions are modelled as `Err` results. Stack unwinding and the exception objects' messages are not modelled.
