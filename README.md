# Self-reproducing networks of machines and tapes, in Dafny

The repository simulates an artificial chemistry. A *tape* is a fixed-width
circular bit string. A *machine* is a 16-bit value made of four 4-bit fields:

- an output table `tranT`;
- a state-transition table `tranM`;
- two landmark patterns, `head` and `tail`.

A machine reacts with a tape as follows. It finds its head landmark on the
tape, then its tail landmark, searching on from the position after the head.
It then runs a two-state transducer over the circular stretch from the head up
to the tail. At each position it writes the output table's bit for the bit it
reads and the current state. Every written bit may be flipped by noise. The
product tape yields a new machine through an interleaved reading of its bits.

Two weighted populations, one of machines and one of tapes, evolve for up to
100 generations. Each generation does the following:

- it samples machines and tapes in proportion to their weights;
- it lets each sampled pair react;
- it multiplies the old weights by `1 - dm` (machines) and `1 - dt` (tapes);
- it adds one unit of weight per copy of each offspring;
- it drops every entry whose weight fell below 1.

The project has six modules:

- `Options` (`options.dfy`) is Python's `None` or a value.

- `Bits` (`bits.dfy`) gives Python's shifts and masks on unbounded integers:
  - `x >> k` is `k` floor halvings;
  - `x << k` is `k` doublings;
  - `& 1` is `% 2`.

  It also proves the facts the other modules need (floor division, low bits,
  bits of a sum).
- `Tapes` (`tapes.dfy`) is the `Tape` value type. It covers the masking
  constructor, value equality, reading bits from the left with circular
  indexing, and the circular pattern search. `Search` is an imperative
  method with the source's nested loops, proved equal to the function
  `FirstMatch`.
- `Machines` (`machines.dfy`) is the `Machine` value type. It covers the
  16-bit encoding in both directions, field equality, construction from a
  tape, and `rewrite_tape`:
  - `RewriteTape` is the imperative method.
  - Its loop is the method `Walk`, proved against the recursive function
    `ValueAfter`.
  - The function `Rewrite` is the specification. The lemmas about it state
    when a reaction fails and which bits a successful one writes.
- `Populations` (`populations.dfy`) models a Python dictionary from
  entities to real weights as a map plus the sequence of its keys in
  insertion order. It holds `sample` as the method `Sample`. It also holds
  the three in-place passes of a generation, decay, renewal and pruning, as
  loops over that map and order, each proved against a function.
- `Evolution` (`evolution.dfy`) holds the reaction loop `React` and the
  class `Soup`. The class's fields are the two dictionaries and their
  insertion orders. `Soup.Step` is one pass of the generation loop and
  `Soup.Run` is the loop `for g in range(100)`.

The random draws are parameters:

- The sorted result of `np.random.randint` is a sequence of integers
  passed to `Sample`.
- The noise outcomes `random.random() < noise` are a sequence of booleans
  passed to `RewriteTape`. Entry `k` says whether the bit written at step
  `k` of the walk is flipped. Steps past the end of the sequence are not
  flipped, so the empty sequence is the noiseless reaction.

## Model

| member | source | states |
|---|---|---|
| Tapes.MakeTape | model.py:6-8 | the tape has width `bits` and value `hex_ mod 2^bits`, so `0 <= value < 2^bits` for every integer input |
| Tapes.SameTape | model.py:17-18 | for two tapes of one width, `__eq__` (value comparison) holds exactly when the tapes are equal |
| Tapes.GetBitPeriodic | model.py:23-25 | `GetBit` (`get_bit_from_left`) is periodic in the index with period `bits`; an index inside the tape reads that bit of the value, counted from the most significant end |
| Tapes.FirstMatch | model.py:27-36 | the position `search` returns is always a position of the tape; a tape of width 0 has none, so its search returns None |
| Tapes.MatchAt | model.py:31-33 | the inner loop leaves `matched` at 0 or 1, and at 1 exactly when the `bits`-wide circular window at `i` spells the pattern |
| Tapes.Search | model.py:27-36 | the nested loops return exactly `FirstMatch`: the first position, in circular order from `start_idx`, whose window spells the pattern, or None |
| Tapes.SearchFindsFirst | model.py:27-36 | a found index lies in `[0, bits)`, its circular window equals the pattern most significant bit first, and no offset scanned before it matches |
| Tapes.SearchFailsIffAbsent | model.py:29-36 | the search returns None exactly when no position of the tape matches the pattern |
| Machines.GetHex | model.py:75-76 | the encoding of any machine lies in `[0, 2^16)` |
| Machines.HexRoundTrip | model.py:58-64 | `FromHex` (`from_hex`) inverts `GetHex`: `from_hex(get_hex(m))` gives back `m` |
| Machines.HexDecodeEncode | model.py:75-76 | `get_hex(from_hex(h))` is `h mod 2^16`, hence `h` itself for every `h` in `[0, 2^16)` |
| Machines.SameMachine | model.py:51-52 | field-by-field `__eq__` holds exactly when the machines are equal, and exactly when their 16-bit encodings are equal |
| Machines.Gather | model.py:69-72 | a field read off a tape is a nibble whose bits, most significant first, are the tape bits at `p`, `p+2`, `p+4`, `p+6` |
| Machines.FromTapeBits | model.py:66-73 | `FromTape` (`from_tape`) takes tranT from bits 0,2,4,6, tranM from 1,3,5,7, head from 8,10,12,14 and tail from 9,11,13,15, positions taken modulo the width |
| Machines.FromTapeWraps | model.py:69-72 | on a 7-bit tape the landmark bits wrap onto the table bits: head's first bit is tranM's first bit, tail's first bit is tranT's second bit |
| Machines.Walk | model.py:88-97 | the loop over `range(ihead, end)` leaves the working value `ValueAfter(ih, end - ih)`: each step writes the output table's bit for `(bit << 1) + state`, flipped when the noise says so, and moves the state by the transition table |
| Machines.NoiseOnlyFlips | model.py:92-96 | without noise the written bit is `tranT >> (3 - key) & 1` with `key = (bit << 1) + state`; the noise changes the written bit exactly at the steps whose draw says so |
| Machines.SetBitFromLeftEffect | model.py:97 | the update expression writes the bit at position `i` from the left and leaves every other position of the value unchanged |
| Machines.ValueAfterBits | model.py:90-97 | after `n <= bits` steps the positions visited hold the written bits and every other position holds the tape's original bit |
| Machines.RewriteTape | model.py:78-98 | the method returns exactly `Rewrite(m, t, flips)` |
| Machines.SpanLength | model.py:90 | the walk covers `(itail - ihead) mod bits` positions, a number in `[1, bits - 1]` |
| Machines.RewriteChangesOnlySpan | model.py:88-98 | when both landmarks are found at distinct positions the reaction succeeds; the product has the same width, is masked, and differs from the input only on the circular span from `ihead` up to `itail`, where it holds the transducer's bits |
| Machines.RewrittenBits | model.py:88-98 | the product for landmarks at distinct positions `ih`, `it` keeps the width, is masked, and holds the written bit at each of the `(it - ih) mod bits` positions from `ih` on and the original bit elsewhere |
| Machines.FoundLastIffOnly | model.py:83-84 | the tail search from `ihead + 1` returns `ihead` exactly when `ihead` is the only position where the tail pattern occurs |
| Machines.RewriteFailsIff | model.py:79-86 | `Rewrite` (what `rewrite_tape` returns) is None exactly when the head pattern is absent, or the tail pattern is absent, or the tail pattern occurs only at the head's position |
| Machines.RewriteKeepsWidth | model.py:98 | every product tape has the reactant's width and a value below `2^bits` |
| Populations.Items | test.py:13 | `population.items()` lists each key of the insertion order with its weight, in that order |
| Populations.OwnerFrom | test.py:16-22 | the entry a draw goes to is the first one from `j` on whose running total exceeds the draw; None means no running total exceeds it |
| Populations.AssignedOwners | test.py:13-22 | the sample has at most `nsample` entries; entry `k` is the entity owning draw `k`; it stops exactly at the first draw no entry owns |
| Populations.Sample | test.py:7-24 | the pass over the entries with its running total `pacc` and the pops from `idxs` returns exactly `Assigned(items, draws)` |
| Populations.OwnerInterval | test.py:12-20 | a draw assigned to an entry lies in `[pacc - p, pacc)` for that entry |
| Populations.SampleFromPopulation | test.py:13-22 | every sampled entity is a key of the population |
| Populations.AllDrawsServed | test.py:8-22 | when every draw lies in `[0, sum)` the sample has exactly `nsample` entries |
| Populations.Decay | test.py:60-63 | the loop over the keys multiplies every weight by the factor: the result is `Scaled(pop, factor)` |
| Populations.DecayFacts | test.py:60-63 | decay keeps the key set and its order; with a factor in `(0, 1]` every positive weight stays positive and does not grow |
| Populations.Renew | test.py:66-73 | the insert-at-0-then-increment loop yields `Renewed(pop, news)` and appends new keys in order of first occurrence |
| Populations.RenewedCounts | test.py:66-73 | after renewal the keys are the old keys and the offspring, and each weight is its old weight (0 if new) plus its number of occurrences among the offspring |
| Populations.RenewFacts | test.py:66-73 | renewal keeps the order consistent with the keys and leaves every entry without offspring unchanged |
| Populations.Prune | test.py:76-81 | the loop over a snapshot of the keys that pops weights below 1 yields `Pruned(pop)` and the surviving keys in their order |
| Populations.PrunedUpToKeys | test.py:76-78 | after visiting `i` keys, exactly the unvisited keys and the visited keys of weight at least 1 remain, each with its weight |
| Populations.OrderUpToSplit | test.py:76-78 | after visiting `i` keys, the order is the surviving visited keys followed by the unvisited ones |
| Populations.PruneFacts | test.py:76-81 | after pruning no weight is below 1, entries of weight at least 1 keep their weight, nothing is added, and the order lists exactly the keys left |
| Populations.Generation | test.py:59-81 | decay, renewal and pruning of one population yield `Next` and `NextOrder` |
| Populations.NextWeights | test.py:59-81 | after a generation every weight is at least 1 and is the decayed old weight (0 if new) plus the offspring count; only old entries and offspring are present; an old entry without offspring survives with its decayed weight when that is at least 1 |
| Populations.NextKeepsOrder | test.py:59-81 | after a generation the insertion order lists exactly the keys left, each once |
| Evolution.Offspring | test.py:52-58 | the first `n` reactions yield at most `n` offspring tapes |
| Evolution.OffspringFacts | test.py:52-58 | every offspring tape has its parents' width and is masked |
| Evolution.React | test.py:51-58 | the loop over `zip(ms, ts)` skips failed reactions and collects each product tape with the machine `from_tape` reads off it, in order |
| Evolution.NextTapes | test.py:70-81 | a generation keeps every tape of the tape population at the soup's width and masked |
| Evolution.SampledTapes | test.py:50 | every sampled tape is a key of the tape population and has the soup's width |
| Evolution.Products | test.py:49-58 | every product tape of a generation has the soup's width and is masked |
| Evolution.Soup.Breed | test.py:49-58 | sampling both populations and reacting the pairs yields `Products` and the machines read off them |
| Evolution.Advance | test.py:49-81 | a generation that runs keeps the loop's invariant: each insertion order lists its dictionary's keys once and every tape keeps the soup's width and is masked |
| Evolution.Soup.Step | test.py:45-81 | a pass stops exactly when either population is empty, changing nothing; otherwise the populations and orders become `Advance` of the old ones: `Next` and `NextOrder` with the generation's offspring; the soup stays valid |
| Evolution.PassAdvances | test.py:45-81 | a pass over non-empty populations is `Advance` |
| Evolution.PassStops | test.py:45-46 | a pass that finds a population empty leaves the state as it is, whatever the draws |
| Evolution.TraceUnique | test.py:44-81 | the passes determine the states: two records of the loop over the same draws from the same start agree at every generation |
| Evolution.Soup.TracedStep | test.py:45-81 | pass `g` extends the record of states by the pass's result; a pass that stops completes the record with the unchanged state |
| Evolution.Soup.Run | test.py:44-81 | `states` records the loop: `states[0]` is the initial soup and each entry is the previous one after one pass (`PassOf`) with that generation's draws, so by `TraceUnique` the final soup is determined by the initial one and the draws; the soup ends as `states[generations]`; `generations` is at most 100, every generation before it found both populations non-empty, and fewer than 100 ran only when a population became empty |

## Left out

- The random sources are parameters (`np.random.randint`, `random.random()`), and `random.shuffle` of the sample is not modelled: pairs are formed in draw order.
- Weights are exact `real` numbers: floating-point rounding in `*= 1-dm` and `+= 1` is not modelled.
- `np.random.randint(0, ppl_sum, ...)` with a float upper bound: the draws are arbitrary sorted integers. `Populations.AllDrawsServed` states what happens when they lie below the total weight.
- `__str__`, the generation printout, the `__hash__` hooks (maps keyed by value types replace them), the script constants, the initial populations and `Tape.copy` are not modelled.
- A tape of width 0: `Tape(h, 0)` and its search are modelled (the search tries no position and returns None, so `rewrite_tape` returns None), but `get_bit_from_left` and `from_tape` divide by the width and raise `ZeroDivisionError`; `GetBit` and `FromTape` require a positive width. The soup's tapes have a positive width (`Consistent`).
- The tape population holds tapes of one width (`Soup.Valid`). Python compares tapes by value only, so two tapes of different widths with equal values would be one key there and two keys here.
- The generation loop interleaves the two populations: decay machines, decay tapes, renew machines, renew tapes, then prune both. `Populations.Generation` runs the three passes on one population and then the other. The populations do not share state, so the result is the same.
- Evolution.Soup.Step: only the final state of a pass is stated. The printout between generations is left out.
