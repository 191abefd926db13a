# Ownership and smart pointers on a singly linked list

This project models a Rust cheat sheet's singly linked list. The same list is
written four times, once for each heap-indirection primitive:

- an exclusively owned `Box` list (`Node2`), with the two-cursor "k-th from
  the tail" search `lastK`;
- an `Rc` list whose two heads share one suffix, with the strong counts that
  result;
- a list whose value and successor sit in `Cell`s, so a shared `Rc` path can
  rewrite the successor to point back at the node itself, leaking it;
- a list whose successor sits in a `RefCell<Rc<Node>>`, rewired through
  runtime-checked `borrow`/`borrow_mut`, also closed into a leaking self-loop.

It also models the small validating parser `f1` of `_crates/src/te.rs`.

Modules:

- `Common`: `Option`, `Result`, the `i32` newtype and `Repeat`.
- `SmartPointers`: the primitives.
  - `Rc<T>` is a class with a constant payload, because Rust's `Rc` has no `as_mut`. It has `strong`/`weak` counters and a `freed` flag.
  - `Cell<T>` is a class whose value is replaced as a whole.
  - `RefCell<T>` is a class holding a value and a borrow flag (`Unborrowed | Shared(n) | Exclusive`). `BorrowState`, `TryBorrow` and the other pure functions define the flag's transitions.
- `BoxList`: a pure inductive datatype, with `lastK` as a two-loop method.
- `RcList`, `CellList` and `RefCellList`: the other three lists over `SmartPointers`. Each `main` becomes a scenario method that returns the values the program prints or implies.
- `Te`: `f1`, with the `i32` parser modelled on Rust's decimal `from_str`.

Every panic of the source becomes an `Err` value:

- `expect("root len < k")`;
- `panic!("no val")` and `panic!("no next")`;
- `RefCell`'s already-borrowed conflicts.

Walks over cyclic structures always take an explicit step count or fuel bound.

## Model

| member | source | states |
|---|---|---|
| BoxList.IsNone | Box/src/main.rs:100-105 | `is_none` holds on the end node and on nothing else |
| BoxList.Val | Box/src/main.rs:106-111 | `val` is `None` exactly on the end node, and otherwise the first value of the list |
| BoxList.Next | Box/src/main.rs:112-117 | `next` is `None` exactly on the end node, and otherwise the successor: one node shorter, holding the remaining values |
| BoxList.AccessorsRebuild | Box/src/main.rs:100-117 | `is_none` holds exactly on the end variant and exactly when `val`/`next` give `None`; on a `Some` node, `val` and `next` rebuild it |
| BoxList.Skip | Box/src/main.rs:124-131 | moving a cursor `i` nodes on leaves a list `i` shorter |
| BoxList.SkipValues | Box/src/main.rs:124-131 | after `i` cursor steps exactly the values from index `i` on remain |
| BoxList.SkipStep | Box/src/main.rs:125 | one more cursor step is exactly one more `next`, which never fails while the cursor is before the end |
| BoxList.EndIffEmpty | Box/src/main.rs:128 | the lock-step loop's test `is_none` holds exactly when no values remain |
| BoxList.LastK | Box/src/main.rs:120-134 | fails with "root len < k" exactly when `k` exceeds the number of `Some` nodes; otherwise returns the node after which exactly max(k,0) nodes remain, so a non-positive `k` acts as 0 |
| BoxList.KthFromTail | Box/src/main.rs:120-134 | exactly the last max(k,0) values follow the node found; for 1 <= k <= length it holds the k-th value from the tail; for k <= 0 it is the end node |
| BoxList.SetHead | Box/src/main.rs:86-93 | writing through `as_mut` changes only the head value, keeps the length and successor, and leaves the end node alone |
| BoxList.BoxScenario | Box/src/main.rs:76-136 | the list built is 3,2,1; after the edit it is 33,2,1; `lastK(&n, 2).val()` is `Some(2)` |
| SmartPointers.Rc.New | Rc/src/main.rs:26-29 | `Rc::new` starts a block at strong count 1, weak count 0, payload live |
| SmartPointers.Rc.Clone | Rc/src/main.rs:31-32 | `clone` returns the same block and adds 1 to the strong count only |
| SmartPointers.Rc.Drop | RefCell/src/main.rs:87-92 | dropping a handle subtracts 1 from the strong count, and the payload is freed exactly when the count reaches 0 |
| SmartPointers.Cell.New | Cell/src/main.rs:41 | `Cell::new` stores the value given |
| SmartPointers.Cell.Get | Cell/src/main.rs:43 | `get` yields the whole current value of the cell |
| SmartPointers.Cell.Set | Cell/src/main.rs:41-43 | `set` replaces the whole stored value, and the next `get` returns exactly that value |
| SmartPointers.Cell.Replace | Cell/src/main.rs:59 | the value is replaced and the previous one is handed back for dropping (what `set` does with a handle) |
| SmartPointers.TryBorrow | RefCell/src/main.rs:13-14 | `borrow` fails (`AlreadyMutablyBorrowed`) exactly under a live `RefMut`, and otherwise adds one reader |
| SmartPointers.TryBorrowMut | RefCell/src/main.rs:13-14 | `borrow_mut` succeeds exactly when no guard is live, and otherwise fails with `AlreadyBorrowed` |
| SmartPointers.Release | RefCell/src/main.rs:38-46 | a guard's end gives back one reader or the exclusivity, keeping the flag well formed |
| SmartPointers.Run | RefCell/src/main.rs:13-14 | every history without a panic leaves a well-formed flag |
| SmartPointers.RunCountsGuards | RefCell/src/main.rs:13-14 | along any history without a panic: any number of `Ref`s or exactly one `RefMut`, never both; the next `borrow` succeeds iff no `RefMut` is live, and the next `borrow_mut` iff no guard is live |
| SmartPointers.RefCell.New | RefCell/src/main.rs:31 | a new `RefCell` is unborrowed |
| SmartPointers.RefCell.Borrow | RefCell/src/main.rs:38 | `borrow` fails exactly while mutably borrowed; otherwise it yields the value and counts one more reader |
| SmartPointers.RefCell.BorrowMut | RefCell/src/main.rs:44 | `borrow_mut` succeeds exactly when unborrowed, and then holds the cell exclusively |
| SmartPointers.RefCell.Assign | RefCell/src/main.rs:9-11 | assigning through a live `RefMut` replaces the whole value and hands the previous one back |
| SmartPointers.RefCell.ReleaseGuard | RefCell/src/main.rs:38-46 | a guard going out of scope moves the flag by `Release` and leaves the value alone |
| RcList.IsNone | Rc/src/main.rs:61-66 | `is_none` holds on the end node and on nothing else |
| RcList.Val | Rc/src/main.rs:67-72 | `val` is `Some` exactly on a `Some` node, and then holds that node's value |
| RcList.Next | Rc/src/main.rs:73-78 | `next` is `Some` exactly on a `Some` node, and then holds the node its successor handle points at |
| RcList.AccessorsAgree | Rc/src/main.rs:60-79 | as in the `Box` list, `is_none` holds exactly when `val`/`next` give `None`, and on a `Some` node `val` and the handle rebuild it while `next` follows the handle |
| RcList.Walk | Rc/src/main.rs:60-79 | a finished walk is empty on the end node, and otherwise starts with that node's `val` |
| RcList.WalkMonotone | Rc/src/main.rs:44-46 | payloads never change, so more fuel never changes a walk that has reached the end |
| RcList.ConsReachesEnd | Rc/src/main.rs:45-46 | a node built on a tail that reaches the end reaches it one step later, with its own value in front |
| RcList.Cons | Rc/src/main.rs:27-32 | building a node on a tail clones the tail (count +1) and starts the new node at count 1 |
| RcList.RcScenario | Rc/src/main.rs:22-47 | counts null:2, n1:2, n2:3, n3:1, n4:1; the returned heads n3 and n4 (count 1 each) are `Some` nodes whose successor is one shared block of count 3 (n2); they reach the end reading 3,2,1 and 4,2,1, the same for any larger step bound; `n1.as_ref().val()` is `Some(1)` |
| CellList.Val | Cell/src/main.rs:86-91 | `val` panics with "no val" exactly on the end node, and otherwise reads the value cell |
| CellList.Next | Cell/src/main.rs:79-84 | `next` panics with "no next" exactly on the end node, and otherwise returns the successor cell itself |
| CellList.SelfLoopTrace | Cell/src/main.rs:63 | once a node's successor is its own handle, any number of steps reads its value every time |
| CellList.PrintLoop | Cell/src/main.rs:68-74 | the literal read loop, which re-reads the successor of `n1_rc` each round, prints the node's value ten times once the self-loop has formed |
| CellList.UserScenario | Cell/src/main.rs:41-46 | `get` after `set` returns `User{1,11}`; the write through the raw pointer then changes `id` alone |
| CellList.CellScenario | Cell/src/main.rs:50-74 | after the two `set`s through the `Rc` path, n1's successor is n1's own handle, its value is 11 and the count is 2; the ten values printed are the bounded walk along that loop; `val` is 11 and the loop prints 11 ten times; at scope exit the returned block of `n1_rc` keeps count 1 and is never freed |
| RefCellList.Wrapper | RefCell/src/main.rs:101-103 | a fresh unborrowed `RefCell` holding a fresh `Rc` of `t` at strong count 1 |
| RefCellList.SelfLoopForever | RefCell/src/main.rs:76-77 | a node whose successor is itself never reaches the end, and reads its value at every step |
| RefCellList.TwoThenEnd | RefCell/src/main.rs:48-50 | a node valued a, then b, then the end, reads a,b and reaches the end |
| RefCellList.AssignNext | RefCell/src/main.rs:44 | assigning the successor through `borrow_mut` installs the new handle and drops the old one (count -1) |
| RefCellList.SetAndRewire | RefCell/src/main.rs:40-45 | the value is set, the successor cell's `borrow_mut` succeeds, and the successor becomes the new handle while the old one is dropped (strong count -1, weak count kept) |
| RefCellList.RewireScenario | RefCell/src/main.rs:28-50 | both borrows succeed (different cells do not conflict); `_t` reads 100,99 and then the end; `_t` has count 2, weak 0; the old end node is freed, with weak count 0 |
| RefCellList.ConflictScenario | RefCell/src/main.rs:53-57 | `borrow` while a `borrow_mut` is live fails at run time with `AlreadyMutablyBorrowed` |
| RefCellList.SelfLoopScenario | RefCell/src/main.rs:61-92 | both mutable borrows succeed; node1's successor is itself; strong count 3, weak 0; after both handles go out of scope, the returned block of `node1_rc` keeps count 1, weak 0, and is never freed |
| Te.Utf8Width | _crates/src/te.rs:7 | a character takes 1 to 4 bytes, 1 exactly for ASCII |
| Te.ByteLen | _crates/src/te.rs:7 | `len` counts bytes, never fewer than characters |
| Te.Accumulate | _crates/src/te.rs:10 | the digit loop succeeds only on an all-digit string, and never reports `Empty` |
| Te.AccumulateValue | _crates/src/te.rs:10 | the digit loop gives the signed decimal value when it fits `i32`, and overflows exactly when it does not |
| Te.DecimalValueBound | _crates/src/te.rs:10 | n digits denote a number below 10^n |
| Te.ParseI32 | _crates/src/te.rs:10 | `parse::<i32>` reports `Empty` exactly on the empty string, rejects a lone sign as an invalid digit, and succeeds only on a decimal string |
| Te.ParseI32Correct | _crates/src/te.rs:10 | `parse::<i32>` succeeds exactly on decimal strings whose value fits `i32`, and gives that value |
| Te.ShowNat | _crates/src/te.rs:10 | the reference decimal writer used by the round trips: the digits written for `n` are decimal and denote `n` |
| Te.ShowI32 | _crates/src/te.rs:10 | the reference decimal writer used by the round trips: the text written for `v` is decimal and denotes `v` |
| Te.ParseShowRoundTrip | _crates/src/te.rs:10 | parsing the text of any `i32` gives it back |
| Te.ShortDecimalRange | _crates/src/te.rs:7-10 | a decimal of at most two characters lies in -9..99 |
| Te.Lift | _crates/src/te.rs:10 | the `map_err` keeps a parsed value and wraps a parse failure's kind as `ParseError`, so it never yields `LengthError` or `Unknown` |
| Te.F1 | _crates/src/te.rs:6-11 | `LengthError(s, len)` exactly when the byte length is >= 3, before any parsing; otherwise the parse result with errors wrapped as `ParseError`; never `Unknown`; `Ok` values lie in -9..99 |
| Te.F1RoundTrip | _crates/src/te.rs:6-11 | every number in -9..99, written in decimal, comes back from `f1` |
| Te.F1Examples | _crates/src/te.rs:29-44 | `f1("12")` is `Ok(12)`; `f1("123")` is `LengthError("123", 3)`; `f1("ab")` is `ParseError(InvalidDigit)` |

## Left out

- Box/src/main.rs:
  - the `String`/`Box<String>` deref demonstrations (lines 46-58);
  - the `Node` struct that cannot be declared (lines 65-68);
  - all `Debug` printing.
- BoxList.LastK: the list is a value in the model, so the source's promise that `lastK` only reads the list through `&Node2` holds by construction and is not stated separately.
- BoxList.LastK: the search fails only for k > length; for k == length it returns the head.
- Rc/src/main.rs: `Arc<Mutex<_>>` (line 56) is the multi-threaded analogue and is unused.
- Dropping handles:
  - When a payload is freed, the handles it holds are not dropped in turn. No block freed by the drops the model performs holds a live handle: only empty end nodes are freed.
  - Scopes end only where the source observes counts or leaks. The other blocks' end-of-`main` drops are not modelled.
- `Weak` pointers: the programs only read `weak_count`, so there is no `downgrade`/`upgrade`. The cycle-breaking fix that the comments suggest is not modelled.
- Cell/src/main.rs:70-72: the read loop goes through a raw pointer. It is modelled as a plain read of the cell.
- `Cell::get` requires `Copy` in Rust. The model reads any value.
- Printing a cyclic list (RefCell/src/main.rs:76-77) never ends in Rust. The model replaces it with walks bounded by a fuel count.
- The commented-out raw-pointer write (RefCell/src/main.rs:70-73) is not modelled.
- RefCellList.ConflictScenario: in the source the two conflicting borrows are commented out (lines 56-57). The model states what they would do.
- Te.F1:
  - The model parses over characters, while Rust parses bytes. Any non-ASCII character is rejected by both.
  - `ParseIntError` is represented by its error kind alone.
  - The `Display` texts of `MyError` are formatting only.
- Threads, async runtimes, the network, the filesystem and the other syntax demonstrations in the repository are not part of this model.
