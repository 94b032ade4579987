# Parking gate core: admission/release state machine and plate decoding

This project models two pieces of the parking backend in Dafny and proves properties about them.

1. **`ParkingSystem`** (`backend/logic.py`) decides whether a car may enter or leave.
   - Its state is:
     - the free-spot counter of zone `A`;
     - the entry register, which maps a plate to its entry time and keeps insertion order;
     - a payment table that no operation ever touches.
   - Entry checks the counter first. Then it checks whether the plate is already registered, by exact match.
   - Exit scans the register in insertion order and releases the **first** plate within Levenshtein distance 2 of the plate that was read.
2. **Greedy CTC collapse** in `decode_lpr` (`backend/lprnet_arch.py`). It turns the per-position class indices of the plate recogniser into text. The blank `-` is dropped and runs of equal indices collapse to one character. The blank still counts as the previous index, so a blank between two equal characters keeps both.

## Modules

- `levenshtein.dfy`, module `Levenshtein`:
  - `EditDistance` is a recursive definition of insert/delete/substitute edit distance. It stands in for the `Levenshtein.distance` C function.
  - The facts the exit lookup needs: identity, zero iff equal, symmetry, length bounds, and the substitution bound.
  - `ComputeEditDistance` computes the distance row by row in a table and is proved equal to `EditDistance`.
- `parking.dfy`, module `Parking`:
  - The state `System` and the operations `Init`, `ProcessEntry` and `ProcessExit`, written as pure functions from state to (next state, reply).
  - `FindFirstMatch`, the exit scan written as a loop.
  - The conservation invariant and replays of event sequences.
  - The two quirks of exit (see below).
- `ctc.dfy`, module `Ctc`:
  - The alphabet `Chars` and its index table `CharsDict`.
  - The collapse, defined over any alphabet whose last entry is the blank. `CollapseFrom` carries the previous index the way the loop's `prev_idx` does.
  - The loop `DecodeWith` / `DecodeLpr`.
  - A run-length characterisation of the output.

Modelling choices:
- **Zone `A` is a single counter.** The free-spot dictionary is created with the one key `'A'` and nothing ever adds a key, so it is modelled as one integer. Asking `process_entry` for any other zone raises `KeyError` at `backend/logic.py:12` before anything changes. That case is the `KeyError` result of `ProcessEntry`.
- **The register is a sequence.** It is a `seq<Entry>` in insertion order. `pop(found)` is `Without`, which removes the entries with that plate and keeps the order of the rest. Plates are distinct in every reachable state (proved), so `Without` removes exactly one entry (`WithoutDistinct`).
- **Timestamps are opaque.** `datetime.now()` becomes a `Timestamp` parameter that is stored and never computed with.
- **Exit keeps the source's quirks.**
  - `if found:` at `backend/logic.py:28` treats an empty matched plate as "not found". A registered `""` is within distance 2 of every reading of at most two characters. For such a reading, `""` stops the scan when no plate before it matches, and it hides every later candidate, even the exact plate (`EmptyPlateHidesLaterMatch`). The empty plate itself can never be released (`EmptyPlateNeverLeaves`).
  - Exit always credits zone `A`.
  - Exit takes the first plate within tolerance, not the closest (`FirstMatchNotClosest`).
- **Only what the code does is modelled.** The code implements no fees, payment, forced exit, manual opening or closest-match selection, so none of these is modelled. Entry does not reject an empty plate. A repeated entry while the zone is full answers "Brak miejsc" (no space).
- **Default arguments.** `capacity_a=20` is `DefaultCapacity`, and the default zone `'A'` is `ZoneA`. The model's operations take both explicitly.

## Model

| member | source | states |
|---|---|---|
| Parking.Init | backend/logic.py:5-8 | A new system with capacity c satisfies the conservation invariant: c free spots, an empty register, an empty payment table. |
| Parking.ProcessEntry | backend/logic.py:10-18 | Only zone A exists; any other zone raises a key error. Admission happens exactly when the counter is positive, and the plate is registered afterwards. A new plate is appended with its time and costs exactly one spot. An already registered plate gets "already inside" with no change. A zero or negative counter gets "no space" with no change, even for a registered plate. Free spots plus register size never change, and payments are untouched. |
| Parking.Plates | backend/logic.py:13 | The plates of the register, position by position; exact membership is the dictionary's key lookup. |
| Parking.FirstMatch | backend/logic.py:22-26 | The scan result is the first index whose plate is within distance 2 of the reading, with every earlier plate farther away. No result means every registered plate is farther than 2. |
| Parking.FindFirstMatch | backend/logic.py:22-26 | The scan written as a loop that stops at the first plate whose computed distance is within 2. It returns that plate, or nothing exactly when no plate is within 2. |
| Parking.ProcessExit | backend/logic.py:20-34 | Release happens exactly when the first match exists and is non-empty. Then that plate is popped, zone A gains one spot, and the message is "Dziękujemy " followed by the plate. Otherwise the state is unchanged and the message is "ticket not found". Payments are untouched. |
| Parking.Without | backend/logic.py:31 | `pop(found)` on the register: the result is never longer than the register. Its contents are characterised by WithoutMembers, WithoutAbsent and WithoutDistinct. |
| Parking.ExitReleasesFirstMatch | backend/logic.py:28-33 | When the first match holds a non-empty plate, exit answers (True, "Dziękujemy " + that plate) and pops that plate from the register. |
| Parking.WithoutMembers | backend/logic.py:31 | Popping a plate keeps exactly the entries with other plates. |
| Parking.WithoutAbsent | backend/logic.py:31 | Popping a plate that is not registered changes nothing. |
| Parking.WithoutDistinct | backend/logic.py:31 | With distinct plates, popping the plate at index i removes exactly that entry and keeps the others in order. |
| Parking.RemovalKeepsDistinct | backend/logic.py:31 | Removing one entry keeps the remaining plates pairwise distinct. |
| Parking.RemovalKeepsLater | backend/logic.py:31 | Removing one entry keeps the plate of every later entry registered. |
| Parking.ExitRemovesExactlyFirstMatch | backend/logic.py:22-33 | A successful exit removes the first matching entry and nothing else. The other entries keep their order, the counter rises by one, and the reply names the matched plate. |
| Parking.EntryPreservesInvariant | backend/logic.py:12-16 | Every completed entry keeps free + registered = capacity, distinct plates, and an empty payment table. |
| Parking.ExitPreservesInvariant | backend/logic.py:28-33 | Every exit keeps free + registered = capacity, distinct plates, and an empty payment table. |
| Parking.InvariantBounds | backend/logic.py:5-6 | Under the invariant with a non-negative capacity, the counter lies in [0, capacity] and the register holds at most capacity plates. |
| Parking.RunPreservesInvariant | backend/logic.py:10-34 | Any sequence of entries and exits keeps the invariant. An entry that raises leaves the state unchanged. |
| Parking.OccupancyNeverExceedsCapacity | backend/logic.py:5-34 | From a fresh system with capacity c >= 0, every reachable state has 0 <= free <= c, at most c registered plates, distinct plates, and no payments. |
| Parking.DefaultSystemBounds | backend/logic.py:5-34 | A system built with the default capacity of 20 never holds more than 20 vehicles, and its free count stays between 0 and 20, after any sequence of entries and exits. |
| Parking.RepeatedEntryIsIdempotent | backend/logic.py:12-18 | Entering twice with the same plate leaves the state as after the first entry. The second reply is "already inside" if a spot is still free, and "no space" otherwise. |
| Parking.ExactPlateLeaves | backend/logic.py:22-33 | Reading a non-empty plate exactly as registered at index k makes the exit succeed, unless an empty plate registered before k is within 2 of the reading. The plate released is the first match, at an index <= k. It is the read plate itself when no earlier plate is within 2. |
| Parking.EmptyPlateNeverLeaves | backend/logic.py:28 | Once the empty plate is registered, no exit removes it, so it keeps its spot forever. |
| Parking.EmptyPlateHidesLaterMatch | backend/logic.py:22-28 | Take "" registered at index i, a plate Q of at most two characters registered at a later index j, and no plate before i within 2 of Q. Then reading Q is refused and nothing changes. |
| Parking.FirstMatchNotClosest | backend/logic.py:22-33 | Take distinct plates, where the first match for reading Q is a non-empty plate P at index i and Q itself is registered at a later index. Then reading Q exactly releases P and not Q, although Q is strictly closer. Only P's entry is removed, and Q stays registered. |
| Parking.SingleSpotScenario | backend/logic.py:10-34 | With capacity 1, the first car is admitted and a second is refused. The first car leaves on any reading within 2 of its plate. Then the second car is admitted. |
| Levenshtein.EditDistanceSelf | backend/logic.py:24 | `EditDistance`, the recursive stand-in for `Levenshtein.distance`: every plate is at distance 0 from itself. |
| Levenshtein.EditDistanceZeroIff | backend/logic.py:24 | Distance 0 holds exactly when the two strings are equal. |
| Levenshtein.EditDistanceSymmetric | backend/logic.py:24 | The distance does not depend on argument order, so comparing the reading with a plate or the plate with the reading gives the same match. |
| Levenshtein.EditDistanceLengthBounds | backend/logic.py:24 | The distance lies between the difference of the lengths and the longer length. |
| Levenshtein.EditDistanceAtMostMismatches | backend/logic.py:24 | For equal lengths, the distance is at most the number of differing positions. |
| Levenshtein.SingleSubstitution | backend/logic.py:24 | A reading one character off a plate is within distance 1 of it. |
| Levenshtein.FirstRow | backend/logic.py:24 | The first table row holds the distances from the empty string to each prefix. |
| Levenshtein.NextRow | backend/logic.py:24 | Each new row holds the distances from one more character of the first string to each prefix of the second. |
| Levenshtein.ComputeEditDistance | backend/logic.py:24 | The table computation returns exactly the recursive `EditDistance`, which is zero exactly when the strings are equal. |
| Ctc.CharsCodes | backend/lprnet_arch.py:4-6 | The alphabet is the ten digits, the 26 upper-case letters and `-`, in that order: 37 entries. |
| Ctc.CharsShape | backend/lprnet_arch.py:4-6 | The 37 entries are pairwise distinct and the last one, the blank, is `-`. |
| Ctc.EnumerateInverts | backend/lprnet_arch.py:7 | For an alphabet without repeats, the enumeration dictionary maps each character back to its index and has no other key. |
| Ctc.Enumerate | backend/lprnet_arch.py:7 | The dictionary built by enumerating a sequence maps every key to a position of the sequence that holds that key. |
| Ctc.CharsTable | backend/lprnet_arch.py:7 | `CharsDict`, the table of the alphabet: CHARS_DICT[CHARS[i]] == i for every valid i, and its keys are exactly the alphabet's characters. |
| Ctc.CollapseFrom | backend/lprnet_arch.py:64-71 | The decoded text is never longer than the index sequence. |
| Ctc.Collapse | backend/lprnet_arch.py:64-71 | Decoding from the start, with prev_idx = -1: the text is no longer than the input. A first index that is not the blank always yields its character first, because -1 matches no class. |
| Ctc.CollapseLetters | backend/lprnet_arch.py:64-69 | Every decoded character is a non-blank entry of the alphabet. |
| Ctc.DecodeWith | backend/lprnet_arch.py:64-71 | The loop with prev_idx returns the collapse of the input. The text is at most as long as the input, empty for an empty input, and free of the blank. |
| Ctc.DecodeLpr | backend/lprnet_arch.py:64-71 | With the real alphabet, every output character is in CHARS and differs from `-`. The output is no longer than the input, and an empty input gives "". |
| Ctc.CharsLetters | backend/lprnet_arch.py:4-6 | The non-blank entries of CHARS are characters of CHARS other than `-`. |
| Ctc.RunsOf | backend/lprnet_arch.py:66-70 | Every index sequence splits into maximal runs (non-empty, neighbours differ) that concatenate back to it. |
| Ctc.CollapseRun | backend/lprnet_arch.py:66-70 | A run of k >= 1 equal indices contributes at most one character, and only if it differs from the previous index and is not the blank. |
| Ctc.CollapseRuns | backend/lprnet_arch.py:66-70 | Decoding maximal runs gives one character per non-blank run, in order. |
| Ctc.DecodeIsRunHeads | backend/lprnet_arch.py:64-71 | For every input, the decoded text is the characters of its maximal non-blank runs in order: the run heads. |
| Ctc.BlankSeparatesRepeats | backend/lprnet_arch.py:68-70 | [a, blank, a] decodes to CHARS[a] + CHARS[a], because the blank resets prev_idx. |
| Ctc.AdjacentRepeatsMerge | backend/lprnet_arch.py:68-70 | [a, a] decodes to the single character CHARS[a]. |
| Ctc.DirectMapping | backend/lprnet_arch.py:67-69 | Without blanks and without equal neighbours, and with the first index differing from the previous one, decoding maps index to character one for one. |
| Ctc.DecodeDirect | backend/lprnet_arch.py:64-69 | An input with no blanks and no equal neighbours decodes to CHARS[i0] CHARS[i1] ... |

## Left out

- `backend/main.py` (the HTTP endpoint, image decoding, detector inference, crop clamping, debug writes), `frontend/app.py` (the UI) and `backend/database.py` (the SQL schema, which the logic never uses) are not part of this model. They are I/O, UI or storage plumbing.
- The recognition network (`LPRNet`, `SmallBasicBlock`) and the softmax/argmax in `decode_lpr` are floating-point tensor numerics. The model starts from the argmax index sequence.
- Ctc.DecodeWith: the indices must lie in [0, |alphabet|). An argmax over a class dimension of size `len(CHARS)` always gives such indices, so the `IndexError` that an out-of-range index would raise in Python is not modelled.
- `Levenshtein.distance` is a call into a C library. It is replaced by the recursive `EditDistance` definition. Python strings are sequences of code points, as Dafny strings are here.
- `datetime.now()` is a clock read. It is a `Timestamp` parameter and is only stored.
- Parking.ProcessExit: zone `A` is always present, so the `KeyError` that `free_spots['A']` could raise on a dictionary without that key cannot happen and is not modelled.
- Exceptions reaching the caller are caught by the endpoint's handler. In `Run` they leave the state unchanged.
- Fees, payment, forced exit, manual opening and closest-match selection: the code implements none of them, so none is modelled.
- Concurrency: the code runs single-threaded and takes no locks.
- Python's dynamic typing: plates are strings and capacities are integers. Any other argument type is not modelled.
