# Two hand-rolled linked lists, modelled and verified in Dafny

The repository has two small linked lists written in Rust:

- `DoubleLinkList<T>` (src/list2.rs), a doubly-linked list fenced by two
  sentinel nodes, `tail` and `head`. Forward links (`next`) own their
  targets. Backward links (`prev`) are weak. The list keeps an element
  counter, `size`.
- `List<T>` (src/list1.rs), a singly-linked stack that owns its nodes
  exclusively. It has `push`, `pop`, `head` (peek), three iterators
  (`iter`, `iter_mut`, `into_iter`), a conversion into a vector, a
  `Display` rendering and an iterative `Drop`.

Both lists are modelled as Dafny classes over heap nodes with in-place
field updates, mirroring the Rust code. Four modules:

- `Shared`: `Option`, element-wise `Map`, string `Join` with a separator,
  and decimal rendering of integers.
- `DoublyLinked` (doubly.dfy), modelling src/list2.rs:
  - `Node` and `DoubleLinkList` classes.
  - Ghost fields `nodes` (the chain from `tail` to `head`) and `contents`
    (the values strictly between the sentinels, in `next` order).
  - `Valid()`, the structural invariant:
    - consecutive `next` links, mirrored by `prev` links;
    - distinct nodes;
    - `tail.prev` and `head.next` empty;
    - `size` never below the number of elements.
  - `Counted()`, which says `size == |contents|` exactly.
  - `Unreferenced(n)`, the condition under which `Rc::into_inner` succeeds on
    a removed node: no chain node still owns a link to it.
- `SinglyLinked` (singly.dfy), modelling src/list1.rs:
  - `Node` and `List` classes, plus `Iter`, `IterMut` and `IntoIter` cursors.
  - Ghost field `nodes`.
  - `Valid()`: an acyclic chain from `head`, with distinct nodes.
  - `Contents()`: the values along the chain, head first.
- `Scenarios` (scenarios.dfy): client methods whose contracts state the
  exact expected outcome. They cover:
  - the scenarios of tests/test.rs, all on `List`;
  - the `display` test of src/list2.rs;
  - four further `DoubleLinkList` scenarios that are not among the
    repository's tests: `BothEnds` (one push at each end, then both pops),
    `EmptyPops` (both pops and `Display` on an empty list),
    `PopFrontThenPushBack` and `PopBackThenPushFront` (a push repairing
    the list after an empty pop).

The contents of `DoubleLinkList` are read in `next` order from `tail` to
`head`. So `push_back` prepends, `push_front` appends, `pop_back` removes
the first element and `pop_front` removes the last.

A sentinel-bounded doubly-linked list is often built as a ring. This code
does not build one:

- `new` links only `tail.next = head` and `head.prev = tail`
  (src/list2.rs:49-50).
- `head.next` and `tail.prev` stay empty.
- `Drop` and `Display` stop at the node whose `next` is empty.

The model follows the code: the chain is linear.

Three sharp edges of the code are stated in the contracts rather than
hidden:

- An empty `pop_front` has already taken `head.prev`, and an empty
  `pop_back` has already taken `tail.next`, before they return `None`.
  The contract says which link is gone, that `Valid()` no longer holds,
  and that the list is `Torn()`: still empty, with the other inner
  sentinel link as it was. The operations accept exactly the links they
  unwrap:
  - `push_back`, `pop_back` and `Display` need only `tail.next`
    (`TailLinked()`);
  - `push_front` and `pop_front` need only `head.prev` (`HeadLinked()`).

  So after an empty `pop_front`, `Display` renders "", `pop_back` returns
  `None`, and `push_back` makes the list whole again, because it rewrites
  `head.prev`. After an empty `pop_back`, `push_front` does the same,
  because it rewrites `tail.next`. Once both links are gone, every
  operation other than `Drop` panics at an `unwrap`.
- `split_at` leaves `size` unchanged. Afterwards the counter overcounts
  by one more than before: exactly one if the list was `Counted()`, after
  which it is not (`!Counted()`). For that reason `Valid()` only demands
  `|contents| <= size`.
- `split_at` on a sentinel panics at an `unwrap`. The model requires an
  interior node.

## Model

| member | source | states |
|---|---|---|
| DoublyLinked.Node.constructor | src/list2.rs:19-27 | a fresh node holds the value and has neither link |
| DoublyLinked.DoubleLinkList.constructor | src/list2.rs:46-57 | the list is valid and empty with `size` 0; `tail.next` is `head` and `head.prev` is `tail`; `head.next` and `tail.prev` are absent |
| DoublyLinked.DoubleLinkList.PushBack | src/list2.rs:59-72 | from any state with `tail.next` (valid, or empty with `head.prev` taken): contents become `[v] + old`, `size` grows by one, and the list is valid; a fresh node is inserted right after `tail` |
| DoublyLinked.DoubleLinkList.PushFront | src/list2.rs:74-93 | from any state with `head.prev` (valid, or empty with `tail.next` taken): contents become `old + [v]`, `size` grows by one, and the list is valid; a fresh node is inserted right before `head` |
| DoublyLinked.DoubleLinkList.PopFront | src/list2.rs:95-114 | needs only `head.prev`. Empty: `None`, with `head.prev` taken, `tail.next` as it was, and the list torn, not valid. Otherwise: `Some` of the last element; contents lose it; `size` drops by one; the node is unlinked, its `prev` cleared, and no chain node links to it (so `Rc::into_inner` succeeds) |
| DoublyLinked.DoubleLinkList.PopBack | src/list2.rs:116-128 | needs only `tail.next`. Empty: `None`, with `tail.next` taken, `head.prev` as it was, and the list torn, not valid. Otherwise: `Some(contents[0])`, leaving `contents[1..]`; `size` drops by one; `tail.next` and `q.prev` are rewired; the removed node's `next` is cleared and no chain node links to it |
| DoublyLinked.DoubleLinkList.SplitAt | src/list2.rs:130-144 | for an interior node `t` at index `k`: the predecessor is linked to the successor; exactly `t`'s element leaves the contents, the rest keep their order; both of `t`'s links are cleared; `size` is unchanged, so it overcounts by one more than before (exactly one for a list that was `Counted()`), and the list is no longer `Counted()` |
| DoublyLinked.DoubleLinkList.Fmt | src/list2.rs:153-164 | from any state with `tail.next`, the rendering is the values strictly between the sentinels, in `next` order, joined by " -> "; the loop ends at `head`, the only node without `next` |
| DoublyLinked.DoubleLinkList.Drop | src/list2.rs:167-174 | walking from `tail`, every node of the forward chain ends with an empty `next`; `prev` links and values are untouched; this also holds for the broken chain an empty pop leaves |
| DoublyLinked.DoubleLinkList.UnreferencedOutside | src/list2.rs:113 | in a valid list, a node outside the chain has no owning link into it: `Rc::into_inner` on a removed node succeeds |
| DoublyLinked.DoubleLinkList.TornValid | src/list2.rs:95-128 | an empty list left by empty pops is valid exactly when both `tail.next` and `head.prev` are back |
| DoublyLinked.DoubleLinkList.EmptyValidTorn | src/list2.rs:46-57 | the valid empty list is the torn shape with both inner sentinel links present |
| DoublyLinked.DoubleLinkList.ValidIsForwardChain | src/list2.rs:167-174 | a valid list's nodes form the forward chain the teardown loop needs |
| DoublyLinked.Teardown | src/list2.rs:167-174 | dropping a valid list clears every forward link, sentinels included, and leaves every backward link and every value as it was |
| DoublyLinked.PushPopBack | src/list2.rs:59-128 | `push_back(v)` then `pop_back()` returns `Some(v)` and restores nodes, contents and `size` |
| DoublyLinked.PushPopFront | src/list2.rs:74-114 | `push_front(v)` then `pop_front()` returns `Some(v)` and restores nodes, contents and `size` |
| SinglyLinked.Node.constructor | src/list1.rs:56-59 | a fresh node holds the value and the given successor |
| SinglyLinked.ValuesAt | src/list1.rs:4-7 | position `i` of the abstract contents is the value of the `i`-th node |
| SinglyLinked.ValuesPointwise | src/list1.rs:4-7 | every position of the contents holds the value of the node at that position |
| SinglyLinked.ValuesMapped | src/list1.rs:107-112 | if every node holds `f` of its old value, the contents are the old contents mapped by `f` |
| SinglyLinked.ChainTail | src/list1.rs:64-69 | the chain minus its first node is the chain from that node's successor |
| SinglyLinked.List.constructor | src/list1.rs:50-52 | the list is valid and empty |
| SinglyLinked.List.Push | src/list1.rs:55-61 | contents become `[v] + old`; the new head is a fresh node in front of the old chain |
| SinglyLinked.List.Pop | src/list1.rs:64-69 | empty: `None`, list unchanged. Otherwise: `Some` of the first value, and the contents and chain lose their first entry |
| SinglyLinked.List.Head | src/list1.rs:72-74 | `None` exactly when the list is empty; otherwise the first value; the list is only read |
| SinglyLinked.List.Iter | src/list1.rs:82-87 | a fresh cursor at the head over the whole chain |
| SinglyLinked.List.IterMut | src/list1.rs:115-121 | a fresh writing cursor at the head over the whole chain |
| SinglyLinked.List.IntoIter | src/list1.rs:135-142 | a fresh draining iterator owning the list |
| SinglyLinked.List.IntoVec | src/list1.rs:14-26 | the vector is the old contents, head first; the list is left empty |
| SinglyLinked.List.Fmt | src/list1.rs:28-40 | the rendering is "List[", then the values head first separated by ", ", then "]" |
| SinglyLinked.List.Drop | src/list1.rs:144-151 | the loop ends; every old node's `next` is cleared; values are untouched; the list is empty |
| SinglyLinked.CollectValues | src/list1.rs:16-21 | the accumulator grows by the values from `node` on, in chain order |
| SinglyLinked.RenderValues | src/list1.rs:30-35 | the accumulator grows by the renderings of the values from `node` on, in chain order |
| SinglyLinked.Iter.constructor | src/list1.rs:82-87 | the cursor starts at the given node, at position 0 of the chain |
| SinglyLinked.Iter.Next | src/list1.rs:92-97 | before the end: `Some` of the current node's value, and the cursor moves one node on. At the end: `None` |
| SinglyLinked.IterMut.constructor | src/list1.rs:116-120 | the cursor starts at the given node, at position 0 of the chain |
| SinglyLinked.IterMut.Next | src/list1.rs:107-112 | before the end: the current node, whose `val` is the place to write, and the cursor moves one node on. At the end: nothing |
| SinglyLinked.IntoIter.constructor | src/list1.rs:139-141 | the iterator holds the list |
| SinglyLinked.IntoIter.Next | src/list1.rs:130-132 | each step is a `pop` of the owned list: `None` when empty, else the first value, with the list losing it |
| SinglyLinked.CollectIter | src/list1.rs:82-98 | collecting `iter()` yields every value once, head first, and leaves the list as it was |
| SinglyLinked.UpdateEach | src/list1.rs:100-121 | writing `f` of each value through `iter_mut()` maps the contents by `f`; nodes, order and length stay |
| SinglyLinked.Drain | src/list1.rs:123-142 | collecting `into_iter()` yields exactly the successive pops, and the list ends empty |
| SinglyLinked.PushPop | src/list1.rs:55-69 | `push(v)` then `pop()` returns `Some(v)` and restores head, chain and contents |
| SinglyLinked.PeekPop | src/list1.rs:64-74 | `head()` equals what the next `pop()` returns; both are `None` exactly on an empty list |
| SinglyLinked.IntoVecMatchesIter | src/list1.rs:14-98 | the vector conversion yields the same sequence as `iter()` |
| Shared.Map | src/list1.rs:30-35 | mapping keeps the length; each element is the image of the one at the same position |
| Shared.Join | src/list2.rs:163 | no parts give ""; otherwise the result starts with the first part and its length is the parts' total length plus one separator fewer than there are parts |
| Shared.Digit | src/list2.rs:189 | the character is a decimal digit that denotes `d` |
| Shared.Natural | src/list2.rs:189 | the decimal rendering of `n` has at least one digit, only digits, no leading zero (a single digit exactly for `n` < 10), and the digits denote `n` |
| Shared.Decimal | src/list2.rs:189 | a leading '-' exactly for negative `n`, followed by digits, without a leading zero, that denote the magnitude of `n` |
| Scenarios.ZeroOneTwo | tests/test.rs:24-27 | pushing 0, 1, 2 onto a new list gives contents `[2, 1, 0]` |
| Scenarios.Basic | tests/test.rs:6-20 | push 0, 1, 2, pop, push 3, then four pops yield `Some(2)`, `Some(3)`, `Some(1)`, `Some(0)`, `None` |
| Scenarios.FormatTwoOneZero | tests/test.rs:29 | the stack format of the values 2, 1, 0 is "List[2, 1, 0]" |
| Scenarios.Format | tests/test.rs:23-30 | the rendering after pushing 0, 1, 2 is "List[2, 1, 0]" |
| Scenarios.IterCollect | tests/test.rs:33-40 | `iter()` after pushing 0, 1, 2 yields `[2, 1, 0]` |
| Scenarios.IterMutDouble | tests/test.rs:43-54 | doubling through `iter_mut()`, then `iter()`, yields `[4, 2, 0]` |
| Scenarios.IntoIterCollect | tests/test.rs:57-64 | `into_iter()` after pushing 0, 1, 2 yields `[2, 1, 0]` |
| Scenarios.Countdown | src/list2.rs:187-188 | `n - 1` down to 0, as `(0..n).rev()` lists them |
| Scenarios.Display | src/list2.rs:180-193 | after `push_back` of 0 up to `n - 1`, the rendering is the decimal renderings of `n - 1` down to 0, joined by " -> "; for `n` = 10 that is the expected string |
| Scenarios.BothEnds | src/list2.rs:59-128 | `push_back(1)`, `push_front(2)`, `pop_back()`, `pop_front()` yield `Some(1)` then `Some(2)`, with `size` back at 0 |
| Scenarios.EmptyPops | src/list2.rs:95-128 | on one new list, `pop_front` returns `None`, the rendering is then "", and `pop_back` returns `None` |
| Scenarios.PopFrontThenPushBack | src/list2.rs:59-114 | after an empty `pop_front`, `push_back(1)` makes the list render "1" |
| Scenarios.PopBackThenPushFront | src/list2.rs:74-128 | after an empty `pop_back`, `push_front(1)` makes the list render "1" |

## Left out

- Reference counts of `Rc`/`Weak` and the runtime borrow checks of `RefCell`
  are not modelled. Dafny's heap is garbage-collected, so weak back links
  are plain references. The success of `Rc::into_inner` is stated as the
  ghost condition `Unreferenced`. The failure path of `Rc::into_inner`
  (returning `None` while a second owner exists) cannot arise from the
  list's own operations and is not modelled.
- Panics at an `unwrap` are not modelled. The operations require the
  links they unwrap instead. For example, `DoubleLinkList.PushBack` requires
  `tail.next`, and `SplitAt` requires an interior node.
- The memory-freeing purpose of both `Drop` impls is not modelled. Each is
  modelled as a terminating loop that clears links.
- `size` is modelled as a `nat`, so the `usize` overflow of `size += 1` is
  not modelled. `size -= 1` cannot underflow in the model: `Valid()` keeps
  `size` at least the number of elements.
- `T::to_string` and `format!("{}", val)` are foreign `Display` code. Each
  `Fmt` takes the rendering of one value as a parameter `show`. The
  scenarios pass `Decimal`.
- The sentinel values come from `T::default()`, which is not modelled. The
  constructor instead takes a `filler` value, which is never read.
- Iterator lifetimes and borrow rules of `Iter`/`IterMut` are not modelled.
  The cursors are node pointers with a ghost position in the list's chain.
- The recursion depth of the two `dfs` helpers (src/list1.rs:16-21,
  src/list1.rs:30-35) is not observable in Dafny.
- The recursive `dfs` helpers are modelled as recursive methods,
  `CollectValues` and `RenderValues`.
- `Default` for `Node`, `List` and `DoubleLinkList` just calls the
  constructor, so it is not modelled separately.
- `Debug` derivations are not modelled.
- The test harness in tests/test.rs is not modelled as such. Its
  scenarios are restated as the `Scenarios` methods.
- `Scenarios.Display` is stated for every `n` with the expected string
  built as the Rust test builds it. The literal string for `n` = 10 is not
  spelled out.
