# Pick-the-Right-Stuff: a Dafny model of the game crate's data logic

The repository is a game. A locker of boxes holds items, each owned by one participant, and the boxes get shuffled. Participants (users or agents) each keep a remembered view: a number for a user, a locker for an agent. The comments of `game/src/logic/engine.rs` describe a player predicting an agent's action. The Rust crate has a TCP server and a client that reads frames, and the Python side has its own frame reader and writer; as written the server's handler never uses the stream, and the two sides use different separators. This project models the parts of the Rust `game` crate that hold real logic, plus the Python side's frame reader and writer:

- **Shuffle** (`Shuffle`). The backward-swap pass of `utils/shuffle.rs`, which is Sattolo's algorithm. The random generator is an oracle sequence of draws: draw `d` is the `j` picked at step `i = len-1-d`, and it lies in `[0, i)`. The module has a recursive reference definition (`Pass`, `Shuffled`) and the imperative loop (`Shuffle`). Its properties are stated on the result and on the induced permutation of positions (`Positions`). Stating them on positions matters because items may be equal: every item of `Locker::new` belongs to 0.
- **Items, lockers, shelves** (`Items`, `Lockers`, `Shelves`). `Item` is defined three times in the source, in `logic/item.rs`, `logic/locker.rs` and `lib.rs`. `Shelf` is defined twice, in `logic/shelf.rs` and `lib.rs`. The copies are identical, so each is modelled once. The Rust panics become preconditions: `Vec::swap` and indexing out of range, `Vec::remove` out of range, and the `unwrap` in `get_item_idx_by_belongs`. `Seqs` holds the two slice and iterator operations they share, `swap` and `position`.
- **Decisions and participants** (`Decisions`, `Participants`). `Decision` is identical in `user.rs` and `agent.rs`. `UserCollection` and `AgentCollection` differ only in what a participant remembers, so they are one generic collection of `Participant<M>`: `User = Participant<nat>` and `Agent = Participant<Locker>`. `get_mut_by_id` returns a mutable reference. It is modelled as the position that reference points at.
- **Ordinal suffix** (`Ordinal`). `to_ordinal` on a `u32`.
- **Byte framing** (`Utf8`, `Framing`, `GameTcp`, `ResearchTcp`). The framing logic of `read_until_separator` and `write_to_stream`, as pure functions over byte sequences. A stream is the sequence of bytes the socket would deliver. The reader returns the frame and the part of the stream left for the next read. Strings are turned into bytes by UTF-8 encoding. The two sides are modelled separately:
  - the Rust side uses 0x7e, and end of stream ends the frame;
  - the Python side uses 0x03, and end of stream raises "Stream closed".
- **Engine** (`Engine`). `logic/engine.rs` as written: a fixed chain Init → Shuffling → Peeping → Predicting → End that prints one line per state and breaks at End.

Where the code's own declarations and comments suggest more than the code does, the model follows the code:
- `Locker::new(n)` creates every item as `Item::new(0)` (`game/src/logic/locker.rs:10`). So a fresh locker of two or more boxes has several items of owner 0, and the "each owner in at most one box" invariant (`OwnersUnique`) does not hold for it (`Lockers.FreshLockerSharesOwner`). The lemmas that exchange and remove preserve that invariant apply only to lockers where it already holds.
- `Decision` declares a `None` variant and `rand_choose` has a `2 => Decision::None` arm (`game/src/logic/user.rs:8,16`). The draw comes from `gen_range(0..2)`, so that arm is dead code and `rand_choose` never returns `None`.
- The comments in `engine.rs` say each state should "randomly change to one of the following states" (`game/src/logic/engine.rs:28-31,39-41,49-52`). The code always assigns one fixed next state. The model is that fixed chain.

## Model

| member | source | states |
|---|---|---|
| Shuffle.Shuffle | game/src/utils/shuffle.rs:6-12 | the loop equals the reference pass, so the output is determined by the input and the draws alone; it is a permutation (same length and multiset); length 0 or 1 is unchanged; each output element is the input at `Positions[k]`, and for length ≥ 2 `Positions` is a derangement |
| Shuffle.PassPermutes | game/src/utils/shuffle.rs:7-10 | the sequence of swaps preserves the multiset of elements |
| Shuffle.PassKeepsSettled | game/src/utils/shuffle.rs:7-10 | the steps still to run touch only positions below the current one, so a position is never written again once its step has run |
| Shuffle.ShuffledFollowsPositions | game/src/utils/shuffle.rs:6-12 | the output is the input read through an index sequence that depends only on the length and the draws |
| Shuffle.PassCommutesWithReindex | game/src/utils/shuffle.rs:7-10 | the swaps move elements independently of their values: shuffling a reindexed sequence equals reindexing by the shuffled indices |
| Shuffle.PassLeavesNoFixedPoint | game/src/utils/shuffle.rs:7-10 | the loop invariant (every settled position has moved; open positions hold themselves or something from higher up) carries through to a result with no fixed point |
| Shuffle.PositionsDerange | game/src/utils/shuffle.rs:5 | for two or more elements the induced position permutation is a permutation of 0..n-1 that moves every position, as the doc comment promises |
| Items.New | game/src/logic/item.rs:7-9 | the new item belongs to the given owner and to no other |
| Items.IsBelongsTo | game/src/logic/item.rs:11-13 | an item belongs to an id exactly when it is the item with that owner: ownership is all an item carries |
| Items.NewBelongsOnlyToOwner | game/src/logic/item.rs:7-13 | `Item::new(b).is_belongs_to(c)` holds exactly when c = b |
| Lockers.New | game/src/logic/locker.rs:8-12 | n boxes, every one full, every item owned by 0 |
| Lockers.ExchangeItems | game/src/logic/locker.rs:14-16 | boxes i and j trade contents; other boxes and the length are unchanged; i and j must be in range |
| Lockers.ExchangeTwiceRestores | game/src/logic/locker.rs:14-16 | exchanging the same boxes twice restores the locker |
| Lockers.ExchangeKeepsOwnersUnique | game/src/logic/locker.rs:14-16 | if no owner has items in two boxes before the exchange, none does after |
| Lockers.RemoveItem | game/src/logic/locker.rs:19-21 | returns the box's previous contents and leaves it empty; other boxes and the length are unchanged |
| Lockers.RemoveTwiceYieldsNone | game/src/logic/locker.rs:19-21 | taking from the same box a second time yields None |
| Lockers.RemoveKeepsOwnersUnique | game/src/logic/locker.rs:19-21 | removal keeps every owner in at most one box |
| Lockers.GetItemIdxByBelongs | game/src/logic/locker.rs:24-29 | returns the smallest index of a full box whose item belongs to the id; a box must exist, since the `unwrap` would otherwise panic |
| Lockers.FreshLockerHoldsOnlyZero | game/src/logic/locker.rs:8-29 | in `Locker::new(n)` with n ≥ 1, owner 0 is found at box 0 and no other owner is found |
| Lockers.FreshLockerSharesOwner | game/src/logic/locker.rs:8-12 | a fresh locker of two or more boxes has two items of owner 0, so owners are not unique in it |
| Lockers.RemoveFoundClearsOwner | game/src/logic/locker.rs:19-29 | when an owner's item is in exactly one box, removing at the index the lookup returns yields that item and leaves no item of that owner |
| Shelves.ShuffleShelf | game/src/logic/shelf.rs:14-18 | the shuffled copy has the same items (multiset and length); the item at k came from `Positions[k]`, a derangement for two or more items; one or no item is left as is |
| Shelves.ExchangeItems | game/src/logic/shelf.rs:21-23 | positions i and j trade items, all else unchanged, items preserved as a multiset |
| Shelves.ExchangeSelfIsIdentity | game/src/logic/shelf.rs:21-23 | `exchange_items(i, i)` is the identity |
| Shelves.ExchangeTwiceRestores | game/src/lib.rs:31-33 | exchanging the same positions twice restores the shelf |
| Shelves.RemoveItem | game/src/logic/shelf.rs:26-28 | returns the item at idx; length shrinks by one; items before idx stay, items after it shift down by one |
| Shelves.RemoveThenReinsertRestores | game/src/lib.rs:34-36 | putting the removed item back at idx gives the original shelf, so exactly one item is lost |
| Decisions.RandChoose | game/src/logic/user.rs:12-20 | with the draw in `0..2` the result is `TakeItem` (draw 0) or `Peep` (draw 1), never `None`, and carries the given `from` |
| Participants.New | game/src/logic/user.rs:46-50 | n participants; the one at position k has id k and the given remembered view; ids are distinct |
| Participants.RemoveById | game/src/logic/user.rs:53-55 | afterwards no participant has the id, every other participant remains, and removing an absent id changes nothing |
| Participants.RemoveByIdKeepsOrder | game/src/logic/agent.rs:51-53 | removal distributes over concatenation, so the remaining participants keep their relative order |
| Participants.RemoveByIdKeepsDistinct | game/src/logic/user.rs:46-55 | removal preserves pairwise-distinct ids |
| Participants.GetById | game/src/logic/user.rs:58-60 | finds something exactly when some participant has the id, and then the first such participant |
| Participants.IsEmpty | game/src/logic/agent.rs:59-61 | holds exactly when there are no participants, which is exactly when no id can be found |
| Participants.NewFindsEachId | game/src/logic/agent.rs:45-57 | in a fresh collection of n, id k is found at position k when k < n, and not found otherwise |
| Participants.RemoveEach | game/src/logic/agent.rs:51-53 | removing a list of ids one by one keeps exactly the participants whose id is not in the list |
| Participants.RemovingEveryIdEmpties | game/src/logic/agent.rs:45-61 | removing each id 0..n-1, in any order, from a fresh collection of n leaves it empty |
| Ordinal.Decimal | game/src/utils/mod.rs:14 | `format!("{}", num)` is a non-empty string of decimal digits with no leading zero |
| Ordinal.Suffix | game/src/utils/mod.rs:5-13 | the match yields a two-letter suffix equal to the independent digit rule "tens digit 1 takes th, else 1, 2, 3 take st, nd, rd, else th" |
| Ordinal.DecimalRoundTrip | game/src/utils/mod.rs:14 | the decimal rendering reads back as the number |
| Ordinal.SuffixRules | game/src/utils/mod.rs:5-13 | the suffix is two letters: "th" for last two digits 11-13, otherwise "st", "nd", "rd" for last digit 1, 2, 3 and "th" for the rest |
| Ordinal.SuffixByLastTwoDigits | game/src/utils/mod.rs:5-13 | the suffix depends only on `num % 100` |
| Ordinal.SuffixIsEnglishRule | game/src/utils/mod.rs:5-13 | the source's match agrees everywhere with the digit rule "tens digit 1 takes th" |
| Ordinal.ToOrdinal | game/src/utils/mod.rs:4-15 | the output is the decimal digits of num, with no leading zero, which read back as num, followed by the suffix the rules above choose |
| Utf8.Encode | game/src/utils/tcp.rs:63 | `as_bytes()` here and `data.encode()` at research/src/utils/tcp/helper.py:19: each character becomes one to four bytes, and the encoding is exactly as long as the string when every character is ASCII |
| Utf8.AsciiByteIffChar | game/src/utils/tcp.rs:63 | an ASCII byte occurs in a string's UTF-8 bytes exactly when its character occurs in the string |
| Framing.ScanUntil | game/src/utils/tcp.rs:44-57 | the read loop stops at the first separator (dropped) or at end of stream; the bytes kept contain no separator, and the stream is those bytes, the separator and the rest |
| Framing.ScanReadsFrame | game/src/utils/tcp.rs:39-66 | a separator-terminated frame whose payload lacks the separator is read back exactly, whatever follows |
| GameTcp.ReadUntilSeparator | game/src/utils/tcp.rs:39-60 | returns the bytes before the first 0x7e, never containing 0x7e, and leaves the bytes after it; with no 0x7e it returns the whole stream without error |
| GameTcp.WriteToStream | game/src/utils/tcp.rs:62-66 | builds the buffer handed to `write`: the string's bytes, followed by exactly one 0x7e when `end` is set |
| GameTcp.SeparatorFreeIffNoTilde | game/src/utils/tcp.rs:63-65 | the bytes contain no 0x7e exactly when the string contains no '~' |
| GameTcp.RoundTrip | game/src/utils/tcp.rs:39-66 | reading what `write_to_stream(d, true)` sent yields d's bytes and leaves the rest of the stream, when d has no '~' |
| GameTcp.UnterminatedWritesJoin | game/src/utils/tcp.rs:62-66 | a write without `end` followed by one with it is read as a single frame holding both |
| GameTcp.EndOfStreamEndsFrame | game/src/utils/tcp.rs:47-49 | when the stream closes before a separator the read returns everything sent, without error |
| ResearchTcp.ReadUntilSeparator | research/src/utils/tcp/helper.py:1-15 | succeeds exactly when a 0x03 arrives, returning the bytes before it (never containing 0x03) and leaving the rest; otherwise raises "Stream closed" |
| ResearchTcp.ReadConsumesFrameAndSeparator | research/src/utils/tcp/helper.py:5-15 | a successful read consumes exactly the frame's length plus one byte |
| ResearchTcp.WriteToStream | research/src/utils/tcp/helper.py:18-22 | sends `data.encode()`, followed by exactly one 0x03 when `end` is true |
| ResearchTcp.SeparatorFreeIffNoEtx | research/src/utils/tcp/helper.py:19-21 | the bytes contain no 0x03 exactly when the string contains no U+0003 |
| ResearchTcp.RoundTrip | research/src/utils/tcp/helper.py:1-22 | reading what `write_to_stream(s, True)` sent yields `s.encode()` and leaves the rest, when s has no U+0003 |
| ResearchTcp.UnterminatedWriteFails | research/src/utils/tcp/helper.py:7-8 | a frame written without `end` before the stream closes makes the reader raise, and its bytes are lost |
| Engine.Next | game/src/logic/engine.rs:14-60 | the transition assigned in each arm: only End has none (it breaks), and every other transition brings the loop one step closer to End |
| Engine.MessagesDistinct | game/src/logic/engine.rs:18-57 | each state prints its own line, different from every other state's |
| Engine.Run | game/src/logic/engine.rs:12-61 | the run from a state starts there, ends at End, follows the transition function, and has one more state than the transitions left |
| Engine.RunVisitsOnce | game/src/logic/engine.rs:12-61 | no state is entered twice in a run |
| Engine.Start | game/src/logic/engine.rs:11-62 | `start` enters Init, Shuffling, Peeping, Predicting, End once each, in order, and prints the five lines in that order |

## Left out

- Randomness: `StdRng` is replaced by supplied draws, each within the range it is drawn from. No claim is made about the distribution of `shuffle` or `rand_choose`.
- Socket plumbing in `game/src/utils/tcp.rs`: the `server` accept loop, the `client` print loop, bind and connect, and the `unwrap`/`expect` on I/O errors. Only the framing is modelled.
- `String::from_utf8_lossy` in the client loop. The model only encodes. It has no UTF-8 decoder because the round trips are stated on bytes.
- GameTcp.WriteToStream: models the buffer handed to a single `stream.write`, assumed written in full. The source calls `write`, not `write_all`, and discards the byte count, so a short write could drop the end of the buffer, including the 0x7e. `GameTcp.RoundTrip` assumes the whole frame arrives.
- ResearchTcp.WriteToStream: a Python `str` may hold lone surrogates, on which `encode()` raises. A Dafny `char` is a Unicode scalar value, so that error path is not modelled.
- Rust `usize` ids: participant and owner ids are unbounded naturals. Nothing in these files does arithmetic on them.
- Decisions.RandChoose: the `gen_range(0..2)` draw is a precondition, `draw < 2`. The arms for 2 and the panic are kept, and they are unreachable.
- Participants.GetById: returns the position of the first match, not a mutable reference. Callers of `get_mut_by_id` mutate through that reference, which a value model expresses by updating at the position.
- `game/src/main.rs` (thread spawn and join) and `game/src/cli/mod.rs` (argument parsing): process bootstrap.
- The Python model clients (`research/src/models/`), `research/src/evaluations/__init__.py`, `research/src/main.py` and `research/src/utils/tcp.py`: network calls, JSON, regex parsing and file I/O. The evaluation code imports a `Data` class that `helper.py` does not define, and calls `write_to_stream` with two arguments.
- Interoperation of the two framings: Rust uses 0x7e and Python 0x03. Each side is modelled with its own constant, and no claim is made that they work together.
- The random transitions that the comments in `game/src/logic/engine.rs` describe: the code takes one fixed transition per state, and that is what is modelled.
