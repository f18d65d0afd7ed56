# Transaction log — a Dafny model

The `transaction-log` crate keeps a `TransactionLog`: a singly linked FIFO of
text entries with `head`, `tail` and `length` fields. `append` links a new node
after the tail in O(1). `pop` unlinks the head node in O(1) and returns its
entry, or `None` when the log is empty. A `ListIterator` cursor holds one link
and follows `next` pointers, yielding each entry before it advances.

The model has three modules:

- `LogSpec` (log_spec.dfy) describes the log as a value: the entries, oldest
  first. `PopFront` is one `pop`, and `Replay` runs a sequence of `append`/`pop`
  calls. Its lemmas prove FIFO order, conservation of entries and the length
  count for every run of calls.
- `LinkedLog` (linked_log.dfy) models transaction-log/src/lib.rs imperatively.
  `Node`, `TransactionLog` and `ListIterator` are classes. The `Rc<RefCell<Node>>`
  links become `Node?` references. `TransactionLog` keeps ghost `Nodes` (the
  chain, head first), `Contents` (their entries) and `Repr`. `Valid()` ties them
  to `head`, `tail`, `length` and the `next` links. `Append` and `Pop` are
  proved against `LogSpec` (`Contents == old(Contents) + [value]` and
  `(r, Contents) == PopFront(old(Contents))`). The crate's three tests are
  methods whose postconditions are the tests' assertions.
- `Demo` (demo.dfy) is the `main` function of transaction-log/src/main.rs.
  main.rs lines 1-79 repeat lib.rs lines 1-79 apart from the name of the
  link alias (`SingleLink` for `Link`) and the visibility of the two structs
  (`Node` and `TransactionLog` are not `pub`). The behaviour is identical, so
  the members of `LinkedLog` model both files. The rows below cite lib.rs for them.

The `try_unwrap(...).expect(...)` in `pop` panics if anything besides the
popped `Rc` still refers to the head node. The model turns this into a proof
obligation. After `Pop`, the log refers to the popped node through neither
`head`, `tail` nor any node's `next` (`HoldsNoLinkTo`). In the single-node case
this holds only because `tail` is cleared first. main.rs has no cursor type, so
there the log's links are the only possible referrers and the `expect` cannot
fire. `length -= 1` cannot underflow: `length` is a `nat`, and `Valid()` gives
`length >= 1` whenever `head` is present.

Nodes carry only `next` (lib.rs:7-10). There are no `prev` links, no
backward cursor, no `iter()`/`back_iter()` and no `next_back`; the only way to
get a cursor is `ListIterator::new(head.clone())`. The model has forward links
only.

## Model

| member | source | states |
|---|---|---|
| `LinkedLog.Node.constructor` | transaction-log/src/lib.rs:12-16 | a new node holds the given value and links to nothing |
| `LinkedLog.TransactionLog.constructor` | transaction-log/src/lib.rs:26-32 | a new log is valid and empty: `head` and `tail` absent, `length` 0, no entries |
| `LinkedLog.NewLogIsEmpty` | transaction-log/src/lib.rs:122-127 | the test: a freshly created log has length 0 |
| `LinkedLog.TransactionLog.Append` | transaction-log/src/lib.rs:35-50 | keeps the invariant; the entries become the old entries plus `value` at the end; `length` grows by exactly 1; the new tail holds `value` and ends the chain; on an empty log the new node is also the head, otherwise the head is unchanged; no node other than the old tail has its `next` changed, and no value changes |
| `LinkedLog.TransactionLog.Pop` | transaction-log/src/lib.rs:52-78 | keeps the invariant; on an empty log returns `None` and leaves the log empty; otherwise returns the head's entry, makes its successor the head, decreases `length` by 1, clears `tail` when the log empties and otherwise leaves `tail` unchanged; the remaining nodes are the old ones minus the head, with their `next` links and values unchanged; no link from the log remains to the popped node (the `try_unwrap` cannot fail on the log's account) |
| `LinkedLog.ValidLogShape` | transaction-log/src/lib.rs:18-23 | in every valid log, `head` absent ⇔ `tail` absent ⇔ `length == 0`; the tail node's `next` is absent; following `next` from `head` visits exactly `length` nodes |
| `LinkedLog.ChainFromHeadHasLength` | transaction-log/src/lib.rs:19-22 | any chain of nodes reached from `head` through `next` links is the log's own node list, so it has exactly `length` nodes |
| `LinkedLog.ChainIsUnique` | transaction-log/src/lib.rs:7-10 | the chain that `next` links trace from a given link is unique |
| `LinkedLog.ListIterator.constructor` | transaction-log/src/lib.rs:86-91 | a cursor starts at the link it is given |
| `LinkedLog.ListIterator.Next` | transaction-log/src/lib.rs:97-115 | with a current node: yields its value and moves to its `next`; with no current node: yields `None` and stays exhausted, so every later call yields `None` too; changes only the cursor |
| `LinkedLog.ForwardValues` | transaction-log/src/lib.rs:150-156 | a cursor started at the head of any valid log yields exactly the log's entries in append order before it first yields `None`, and the log is not modified |
| `LinkedLog.ForwardIterationFollowsAppends` | transaction-log/src/lib.rs:143-157 | the test: after appending "Log Item 1", "Log Item 2", "Log Item 3", forward iteration from the head yields those three in order |
| `LinkedLog.AppendedItemsPopInOrder` | transaction-log/src/lib.rs:129-141 | the test: after three appends the length is 3, and four pops return the three items in append order, then `None` |
| `LinkedLog.AppendAfterDrain` | transaction-log/src/lib.rs:59-65 | popping the last entry also clears `tail`, so a later append starts a fresh chain: the new entry is head and tail, length is 1, and it is popped next |
| `Demo.RunDemo` | transaction-log/src/main.rs:81-95 | the demo: three appends, then four pops return "Log Item 1", "Log Item 2", "Log Item 3", `None`, and the final length is 0; these results equal what `LogSpec.Replay` gives for the same calls |
| `LogSpec.FifoConservation` | transaction-log/src/lib.rs:35-78 | for any initial entries and any sequence of appends and pops, the entries the pops returned followed by the entries still held equal the initial entries followed by the appended ones: FIFO order, no entry lost or duplicated |
| `LogSpec.LengthCountsUnpopped` | transaction-log/src/lib.rs:46-66 | after any sequence of calls, the number of entries held is the initial count plus the number appended minus the number popped |
| `LogSpec.ReplayAppends` | transaction-log/src/lib.rs:35-50 | a run of appends returns nothing and adds its entries at the end, in order |
| `LogSpec.ReplayDrain` | transaction-log/src/lib.rs:52-66 | popping n times from a log holding at most n entries returns every entry oldest first, then `None` for each extra pop, and leaves the log empty |
| `LogSpec.AppendsThenPopsAreFifo` | transaction-log/src/lib.rs:130-141 | for any entries v1..vN, N appends to an empty log followed by N + 1 pops return v1..vN in order and then `None` |

## Left out

- `Rc` reference counts and `RefCell` borrow flags are not modelled. Nodes are heap objects. Exclusive ownership of a popped node is stated as "the log holds no link to it" (`HoldsNoLinkTo`).
- LinkedLog.TransactionLog.Pop: a `ListIterator` held by a caller is not tracked. In lib.rs, popping while a cursor still stands on the head node makes `try_unwrap` fail and `pop` panic. The model has no such panic path, because Dafny has no registry of all live cursors.
- LinkedLog.TransactionLog.Append: `length` is an unbounded `nat`. The overflow of `usize` after 2^64 appends is not modelled.
- `dbg!` printing in `main` and the `Debug`/`Clone` derives are not modelled. They are output plumbing only.
- The `Iterator` trait machinery used by the forward-iteration test (`zip`) is not modelled. `ForwardValues` drains the cursor with `Next` until it yields `None`, which is what `zip` does with the three-element array.
- Entries are opaque `string`s. Cloning a `String` in `next` becomes reading the value.
