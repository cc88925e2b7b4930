# Nano node: packed timestamps and network constants in Dafny

This project models two small parts of the Nano node's utility library and
proves what they promise.

**`nano::timestamp_generator`** (`nano/lib/timestamp.hpp`) hands out 64-bit
timestamps. The high 44 bits hold milliseconds since the Unix epoch. The low
20 bits hold a counter that restarts at 0 each millisecond. One atomic cursor,
`next`, holds the next candidate value. Each pass of `timestamp_now` reads the
cursor and the clock and tries a `compare_exchange_weak`. The loop ends when a
pass yields a nonzero value. A winning pass yields 0 only when the clock reads
millisecond 0, and then the loop goes round again.

- `timestamp.dfy` (module `TimestampGenerator`) holds the model.
  - A packed value is a `Packed(time, count)` pair of bounded fields. `Value`
    and `FromWord` convert between the pair and the 64-bit word.
  - Lemmas show that the operations on fields are the masks, shifts, unsigned
    comparison and wrapping `+ 1` of `uint64_t`.
  - Each pass of the retry loop receives an `Attempt`: the millisecond reading
    `now()` would take, and whether the exchange succeeded.
  - `PassOutcome` specifies one pass, and `Run` specifies one call.
  - The class `Generator` holds the cursor. Its method `TimestampNow` is the
    loop itself, proved equal to `Run`.
- `timestamp_properties.dfy` (module `TimestampProperties`) proves what callers
  rely on:
  - when a call returns, and that it never returns 0;
  - consecutive values within one millisecond;
  - the restart of the counter in a new millisecond;
  - order and uniqueness over any interleaving of calls, as long as no pass
    sees the clock behind the cursor's millisecond (and the cursor never
    reaches the top word, which wraps to 0).

  It also shows the two ways uniqueness can fail, both of which follow from
  the code:
  - after 2^20 values in one millisecond, the counter carries into the next
    millisecond, and the first value of the current millisecond is handed out
    again;
  - a clock that goes back yields smaller values.

**`nano::network_constants`** (`nano/lib/config.hpp`) holds the parameters of
one of three networks: test, beta and live.

- `config.dfy` (module `NetworkConfig`) models the following.
  - The enumeration and its integer values. The `rai_*` names are aliases.
  - The process-wide active network, as the field of an `ActiveNetwork`
    object, with both `set_active_network` overloads.
  - `nano::error`, as `Outcome`.
  - The class `NetworkConstants`:
    - its constructor fills the parameter table;
    - the predicates `IsLiveNetwork`, `IsBetaNetwork` and `IsTestNetwork`
      are the three network tests;
    - the predicate `Configured` states the table;
    - the accessor `Network` and `GetCurrentNetworkAsString`.
  - Whether the build runs under a sanitizer is a parameter.

## Model

| member | source | states |
|---|---|---|
| TimestampGenerator.MaskLayout | nano/lib/timestamp.hpp:76-79 | the 44-bit time field and the 20-bit counter fill the word exactly. The two masks are complements: the time mask is 2^64 − 2^20 and the count mask is 2^20 − 1 |
| TimestampGenerator.WordRoundTrip | nano/lib/timestamp.hpp:15-19 | a (milliseconds, counter) pair and the 64-bit word it packs into determine each other: both conversions are inverse |
| TimestampGenerator.ComponentsAreMasks | nano/lib/timestamp.hpp:24-33 | on words, `component_count` (`ComponentCount`) is the value modulo 2^20 (so below 2^20), and `component_time` (`ComponentTime`) is the value with those low bits removed (a multiple of 2^20). The two share no bit and add up to the value |
| TimestampGenerator.TimestampFromMsShifts | nano/lib/timestamp.hpp:34-38 | `timestamp_from_ms(ms)` (`TimestampFromMs`) is `ms · 2^20 mod 2^64`. Its counter is 0, `component_time` leaves it unchanged, and a millisecond count below 2^44 is kept whole |
| TimestampGenerator.IncrementWraps | nano/lib/timestamp.hpp:55-66 | `Increment`, the `+ 1` applied to the cursor, adds one modulo 2^64: the counter rises, or carries into the milliseconds, which wrap to 0 |
| TimestampGenerator.BelowIsUnsignedLess | nano/lib/timestamp.hpp:15-19 | comparing (milliseconds, counter) lexicographically is unsigned `<` on the packed words |
| TimestampGenerator.PassOutcome | nano/lib/timestamp.hpp:51-70 | a failed exchange yields 0 and leaves the cursor. A successful exchange leaves the cursor one past the value it yields, and that value carries the clock's millisecond: it is the old cursor when the cursor is in that millisecond, and otherwise the reading with counter 0 |
| TimestampGenerator.Run | nano/lib/timestamp.hpp:45-73 | a call that returns does so on a successful exchange. It leaves `next` equal to the result plus one, and the result's time component is the millisecond read on that last pass. A call that has not returned has used every pass offered |
| TimestampGenerator.Generator.constructor | nano/lib/timestamp.hpp:75-75 | a new generator's cursor is 0 |
| TimestampGenerator.Generator.TimestampNow | nano/lib/timestamp.hpp:45-73 | the `while (result == 0)` loop returns exactly what `Run` specifies and leaves the cursor `Run` specifies. A nonzero result leaves `next == result + 1` |
| TimestampProperties.ReturnsAtNonzeroReading | nano/lib/timestamp.hpp:48-58 | a successful exchange while the clock reads a nonzero millisecond ends the call, at that pass or earlier |
| TimestampProperties.ReturnsFromLowCursor | nano/lib/timestamp.hpp:64-70 | from a cursor in millisecond 0 with a nonzero counter, any successful exchange ends the call |
| TimestampProperties.ReturnsAfterTwoExchanges | nano/lib/timestamp.hpp:48-72 | whatever the clock reads, a call returns a nonzero value by its second successful exchange. An exchange yields 0 only when the clock reads 0, and it then leaves the cursor at 1 |
| TimestampProperties.ZeroClockOnFreshGenerator | nano/lib/timestamp.hpp:48-72 | on a fresh generator with the clock at 0, the first pass installs 1 and yields 0, which does not end the loop. The second pass returns 1 and leaves 2 |
| TimestampProperties.SameMillisecondReturnsCursor | nano/lib/timestamp.hpp:64-70 | from a nonzero cursor, while the clock stays in the cursor's millisecond, a call returns the cursor itself. A zero cursor is excluded: at clock 0 it yields 0 and goes on to return (0, 1) |
| TimestampProperties.ConsecutiveSameMillisecond | nano/lib/timestamp.hpp:64-70 | two calls in a row that read the same clock return `v` and `v + 1`, as long as the first did not fill the counter |
| TimestampProperties.NewMillisecondRestartsCounter | nano/lib/timestamp.hpp:53-58 | when every reading is a nonzero millisecond other than the cursor's, the call returns exactly `timestamp_from_ms` of that reading |
| TimestampProperties.MillisecondCrossing | nano/lib/timestamp.hpp:53-70 | a call that follows another and reads a later millisecond returns that millisecond with counter 0. This holds even when the first call took the last counter value and the cursor carried into the next millisecond |
| TimestampProperties.ClockRegression | nano/lib/timestamp.hpp:51-58 | a call that follows another and reads an earlier nonzero millisecond returns a value below the previous one |
| TimestampProperties.Replay | nano/lib/timestamp.hpp:45-73 | replaying the passes of any number of callers in the order their exchanges took effect never hands out 0, and hands out at most one value per pass |
| TimestampProperties.ReplayIsCallsInSequence | nano/lib/timestamp.hpp:45-73 | replaying passes equals making calls one after another: the first call returns the first value handed out, and the rest come from the passes it left |
| TimestampProperties.ReplayAppend | nano/lib/timestamp.hpp:45-73 | replaying two runs of passes in turn hands out the values of the first, then those of the second from the cursor the first left |
| TimestampProperties.PassMovesForward | nano/lib/timestamp.hpp:53-70 | a pass whose clock is not behind the cursor's millisecond, and that does not find the cursor at the top word (which wraps to 0), never moves the cursor back. A value it hands out lies between the old cursor and the new one |
| TimestampProperties.TameIssuedIncreasing | nano/lib/timestamp.hpp:15-19 | when every pass meets those two conditions (`Tame`), the cursor never goes back. Every value handed out is at least the starting cursor and below the final cursor, and the values are strictly increasing |
| TimestampProperties.TameIssuedUnique | nano/lib/timestamp.hpp:15-19 | when every pass meets those two conditions, no value is handed out twice |
| TimestampProperties.CountsUp | nano/lib/timestamp.hpp:64-70 | within one millisecond, the values handed out count up by one from the cursor while the counter has room |
| TimestampProperties.OverflowTrace | nano/lib/timestamp.hpp:64-79 | a fresh generator fed 2^20 + 1 passes on one millisecond hands out counters 0 to 2^20 − 1, then the millisecond with counter 0 again |
| TimestampProperties.ExhaustedCounterRepeatsValue | nano/lib/timestamp.hpp:77-77 | the 20-bit counter bounds uniqueness: the 2^20 + 1st value in one millisecond repeats the first, after the values had been strictly increasing |
| TimestampProperties.FreshGeneratorTwoCalls | nano/lib/timestamp.hpp:45-75 | two calls on a fresh generator at one nonzero millisecond return `w` with counter 0, then `w + 1`. The second call's first exchange fails spuriously, leaving the cursor as it was, and it retries |
| NetworkConfig.Ordinal | nano/lib/config.hpp:35-50 | the enumerators are the integers 0 (test), 1 (beta) and 2 (live) |
| NetworkConfig.OrdinalsDistinct | nano/lib/config.hpp:39-50 | distinct networks have distinct integers, ordered test < beta < live |
| NetworkConfig.ThresholdsOrdered | nano/lib/config.hpp:75-78 | the work thresholds are ordered test < beta < full. The beta one accepts 16 times as many work values as the full one |
| NetworkConfig.ParseNetwork | nano/lib/config.hpp:111-131 | "live", "beta" and "test" name the live, beta and test network, and no other string names a network |
| NetworkConfig.ActiveNetwork.constructor | nano/lib/config.hpp:151-152 | the active network starts as the compile-time choice |
| NetworkConfig.ActiveNetwork.SetActiveNetwork | nano/lib/config.hpp:96-104 | the given network becomes active |
| NetworkConfig.ActiveNetwork.SetActiveNetworkByName | nano/lib/config.hpp:106-131 | a valid name makes its network active and reports no error. Any other name reports "Invalid network. Valid values are live, beta and test." and leaves the active network unchanged |
| NetworkConfig.NetworkConstants.constructor | nano/lib/config.hpp:60-94 | `network()` (`Network`) reports the given network, and the object holds that network's threshold, ports and request interval. The principal weight factor is 1000, and the request interval on test is 100 in a sanitizer build and 20 otherwise |
| NetworkConfig.NetworkConstants.Default | nano/lib/config.hpp:55-58 | the default constructor yields the parameters of the active network |
| NetworkConfig.NetworkConstants.GetCurrentNetworkAsString | nano/lib/config.hpp:133-136 | the name returned parses back to the object's own network |
| NetworkConfig.ExactlyOneNetwork | nano/lib/config.hpp:138-149 | exactly one of `is_live_network`, `is_beta_network` and `is_test_network` (`IsLiveNetwork`, `IsBetaNetwork`, `IsTestNetwork`) holds |
| NetworkConfig.NameRoundTrip | nano/lib/config.hpp:114-136 | a name parses to an object's network exactly when it is the name that object reports |
| NetworkConfig.SelectByName | nano/lib/config.hpp:111-136 | passing an object's network name to `set_active_network` succeeds and makes that network active |
| NetworkConfig.ThresholdFollowsNetwork | nano/lib/config.hpp:63-78 | across two parameter objects, the network with the larger integer has the higher threshold. The full threshold belongs to live alone |
| NetworkConfig.PortsDisjoint | nano/lib/config.hpp:68-71 | each network's four default ports are distinct, and two different networks share no port |

## Left out

- The wall clock: `now()` and `seconds_since_epoch` (`nano/lib/timestamp.hpp:10-13`, `39-44`) read `std::chrono::system_clock`. Each pass receives its millisecond reading as input instead.
- Threads and `std::atomic`:
  - Memory ordering and real concurrency are not modelled.
  - Each `compare_exchange_weak` is a boolean in the pass's `Attempt`.
  - A failed exchange, spurious or not, leaves the cursor unchanged.
  - Other threads' calls appear only as the order in which `Replay` applies passes.
- TimestampGenerator.Generator.TimestampNow: the source loops for as long as needed, but the model stops when the offered passes run out. It then reports 0, with every pass used.
- TimestampGenerator.Run: the same bound applies: "never returns 0" is proved for any run of passes holding two successful exchanges (`ReturnsAfterTwoExchanges`), not for an unbounded loop.
- TimestampProperties.TameIssuedUnique: the file comment at `nano/lib/timestamp.hpp:15-19` promises a unique value on every call.
  - Uniqueness is proved only for passes that meet `Tame`: no successful exchange sees a clock behind the cursor's millisecond, or finds the cursor at the top word.
  - The code breaks uniqueness when the clock is behind the cursor. `ClockRegression` shows a clock that goes back.
  - `ExhaustedCounterRepeatsValue` shows a filled counter: the cursor carries into the next millisecond, so a clock still on the old millisecond is then behind it.
  - The top word is at millisecond 2^44 − 1, where `+ 1` wraps the cursor to 0.
- TimestampProperties.TameIssuedIncreasing: strict increase is proved under the same `Tame` condition, for the same reasons.
- The bitwise operators: `&`, `<<`, `>>` and `~` are not applied to words. The two-field representation stands in for them, and the lemmas of `TimestampGenerator` tie each operation to its arithmetic meaning on words.
- The version strings and `BUILD_INFO` (`nano/lib/config.hpp:12-20`) are preprocessor text.
- Sanitizer detection (`nano/lib/config.hpp:22-31`) is a compile-time fact; it is the `isSanitizerBuild` parameter instead.
- The path helpers `get_*_config_path` (`nano/lib/config.hpp:155-178`) are thin wrappers over `boost::filesystem`, which is not part of this model.
- `force_nano_test_network` and `running_within_valgrind` (`nano/lib/config.hpp:181`, `184`) are only declared in this header. Their definitions are not part of this model.
- `nano::error`: its internals are not part of this model. It is `Outcome`: success, or failure with a message.
- `unsigned`: it is taken as 32 bits wide.
