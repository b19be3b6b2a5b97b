# relay_board_control: the board GPIO layer in Dafny

This project models `boardControl` from `relay_lib/board_control.py`. That class is the
board-level layer of a relay test fixture. It maps symbolic pin names such as `RLY1`
to the fixture controller's GPIO numbers. It refuses to drive an input or read an
output. It translates between logical states and electrical levels for active-high
and active-low pins. It configures every pin at start-up.

The fixture transport (`testerApi` from `test_comm`) is foreign code. It is modelled as
the class `TestComm.TesterApi`. That class records every request it receives, in order,
in `log`. It answers from two oracle functions, `ack` (the success signal of
`command_no_resp`) and `respond` (the reply of `command`). Both oracles receive the
whole history, so any transport behaviour is covered. Every property is stated in terms
of what the board layer appends to `log` and what it returns.

Files:

- `wrappers.dfy`: `Option`.
- `test_comm.dfy`: the transport stand-in. Its requests are `gpio-conf`, `gpio-set`
  and `gpio-get`.
- `pin_map.dfy`: the pure decision logic. It holds pin descriptors, first-match lookup,
  the literal direction checks, polarity translation, and `RunInit`, which specifies
  what initialisation sends.
- `board_control.dfy`: the class `BoardControl`. Its methods are imperative. `Initialize`,
  `FindGpioDesc`, `GpioSet` and `GpioGet` are proved against the functions of
  `pin_map.dfy`. The primitives `GpioPinConf`, `GpioPinSet` and `GpioPinGet` are
  specified against the transport's log and oracles.
- `scenarios.dfy`: clients that run the class on a fresh transport. They cover the
  loopback round trip, the `RLY1` example, and "a rejected call sends nothing".

Direction is kept as the raw `dir` string, not an enumeration. The code compares
`dir != "out"` and `dir != "in"` literally, so a `dir` that is neither string fails
both checks.

The model follows the code, with one deliberate departure. A failed read on an
active-low pin (line 116) is reported by the code as "active". `GpioGet` propagates
None instead, as the active-high path does and as `gpio_pin_get`'s declared
`bool|None` result suggests. The behaviour as written is kept in
`PinMap.ToLogicalAsWritten` (see Findings).

## Model

| member | source | states |
|---|---|---|
| `PinMap.PinFromConfig` | relay_lib/board_control.py:22 | a descriptor whose `active_hi` is missing reads as active-low (False); the other fields are copied unchanged |
| `PinMap.FindIndex` | relay_lib/board_control.py:85-91 | the index of the first entry with the queried name, in map order, so that no earlier entry has that name; None exactly when no entry has it |
| `PinMap.Lookup` | relay_lib/board_control.py:85-91 | the descriptor `_find_gpio_desc` returns: None exactly when no entry has the name, otherwise an entry of the map with that name |
| `PinMap.LookupFirstMatchWins` | relay_lib/board_control.py:87-89 | with duplicate names, lookup returns the earliest entry carrying the name |
| `PinMap.Resolve` | relay_lib/board_control.py:95-100 | the outcome of the name and direction checks: unknown exactly when no entry has the name; a mismatch when the found entry's `dir` differs from the wanted string; usable when it equals it (the get path at lines 107-112 uses the same checks with "in") |
| `PinMap.OutputAndInputExclusive` | relay_lib/board_control.py:98-110 | a name that passes the output check fails the input check with a direction mismatch, and the other way round |
| `PinMap.ApplyPolarity` | relay_lib/board_control.py:102-116 | the polarity translation used both to drive (line 102) and to read back (line 116): the result equals the input exactly when the pin is active-high (XNOR) |
| `PinMap.PolarityRoundTrip` | relay_lib/board_control.py:102-116 | for a fixed polarity, translating a logical state to a level and the level back gives the original state |
| `PinMap.ResponseLevel` | relay_lib/board_control.py:67-72 | `gpio_pin_get` gives None exactly when the transport gives no reply, and otherwise the reply's `active` field |
| `PinMap.ToLogicalRead` | relay_lib/board_control.py:115-116 | corrected get-path translation: a failed read stays None; a successful read is translated by the pin's polarity |
| `PinMap.ToLogicalAsWritten` | relay_lib/board_control.py:116 | the translation as written: active-high passes the read through, None included; active-low always returns a value, the negated truthiness of the read |
| `PinMap.FailedReadOnActiveLowReportsActive` | relay_lib/board_control.py:116 | as written, a failed read on an active-low pin reports "active"; the corrected translation gives None |
| `PinMap.FailedReadOnActiveHighPropagates` | relay_lib/board_control.py:115-116 | on an active-high pin a failed read reaches the caller as None, as written too |
| `PinMap.CorrectedAgreesExceptFailedActiveLow` | relay_lib/board_control.py:116 | the corrected and the written translations agree exactly when the read succeeded or the pin is active-high |
| `PinMap.ConfRequest` | relay_lib/board_control.py:20-23 | the configure request for an entry carries its `gpio_num`, its `dir` verbatim as mode, the inactive level (`not active_hi`) as initial state, and both pulls off |
| `PinMap.MissingActiveHiStartsHigh` | relay_lib/board_control.py:22 | an entry with no `active_hi` is configured with initial state True |
| `PinMap.ConfRequests` | relay_lib/board_control.py:19-23 | a complete initialisation sends one configure request per entry, in map order |
| `PinMap.RunInit` | relay_lib/board_control.py:16-26 | initialisation sends at most one request per entry; on success exactly one per entry; on failure at least one |
| `PinMap.RunInitSendsPrefix` | relay_lib/board_control.py:19-25 | what initialisation sends is a prefix of the per-entry requests in map order, so no entry is configured twice or out of order |
| `PinMap.InitProgressStart` | relay_lib/board_control.py:19 | before the loop, no request has been sent and the run still lies wholly ahead |
| `PinMap.InitStepAccepted` | relay_lib/board_control.py:19-23 | after i accepted requests, an accepted (i+1)-th request leaves the log at the first i + 1 requests, with the rest of the run still ahead |
| `PinMap.InitStepRefused` | relay_lib/board_control.py:23-25 | after i accepted requests, a refused (i+1)-th request ends the run with result False and exactly i + 1 requests sent |
| `PinMap.InitProgressEnd` | relay_lib/board_control.py:19-26 | once the loop has sent every entry's request, the run succeeded and sent exactly those requests |
| `PinMap.InitAllAccepted` | relay_lib/board_control.py:19-26 | when every configure is accepted, exactly N requests go out in map order and the result is True |
| `PinMap.InitStopsAtFirstRefusal` | relay_lib/board_control.py:23-25 | when the k-th configure (0-based) is the first refused, exactly k + 1 requests go out, none for later entries, no entry twice, and the result is False |
| `PinMap.InitOutcomeExplained` | relay_lib/board_control.py:16-26 | conversely, True means every configure was accepted; False means the last request sent was refused and all before it accepted |
| `TestComm.TesterApi.CommandNoResp` | relay_lib/board_control.py:61-65 | a fire-and-confirm request is appended to the log, and the oracle's success signal is returned |
| `TestComm.TesterApi.Command` | relay_lib/board_control.py:69 | a request/response request is appended to the log, and the oracle's reply is returned |
| `RelayLib.BoardControl.constructor` | relay_lib/board_control.py:7-14 | the transport handle and the GPIO map are stored and never change afterwards (both are `const`) |
| `RelayLib.BoardControl.Initialize` | relay_lib/board_control.py:16-26 | the log grows by exactly what `RunInit` says for the log as it was, and the result is `RunInit`'s verdict |
| `RelayLib.BoardControl.GpioPinConf` | relay_lib/board_control.py:52-61 | exactly one `gpio-conf` with the five parameters verbatim; returns the transport's signal |
| `RelayLib.BoardControl.GpioPinSet` | relay_lib/board_control.py:63-65 | exactly one `gpio-set` with the literal level; returns the transport's signal |
| `RelayLib.BoardControl.GpioPinGet` | relay_lib/board_control.py:67-72 | exactly one `gpio-get`; returns None on no reply, otherwise the reply's `active` |
| `RelayLib.BoardControl.FindGpioDesc` | relay_lib/board_control.py:85-91 | the scan returns None exactly when no entry has the name; otherwise the entry at an index with that name and no earlier entry of that name |
| `RelayLib.BoardControl.GpioSet` | relay_lib/board_control.py:93-103 | unknown name or `dir` other than "out": False and the log unchanged; otherwise exactly one `gpio-set` for the entry's `gpio_num` at the XNOR level, returning the transport's signal |
| `RelayLib.BoardControl.GpioGet` | relay_lib/board_control.py:105-116 | unknown name or `dir` other than "in": None and the log unchanged; otherwise exactly one `gpio-get` for the entry's `gpio_num`, with the reply translated by polarity and no reply giving None |
| `Scenarios.LoopbackRoundTrip` | relay_lib/board_control.py:93-116 | through a loopback from an output to an input, `gpio_get` returns what `gpio_set` wrote when both pins have the same polarity, and its negation when they differ |
| `Scenarios.RelayScenario` | relay_lib/board_control.py:16-103 | map `[RLY1: gpio 5, "out", active-low]`: initialise sends `gpio-conf {5, "out", istate True, no pulls}`, then `gpio_set("RLY1", True)` sends `gpio-set {5, False}` |
| `Scenarios.InitializeOnFreshFixture` | relay_lib/board_control.py:16-26 | initialise returns True exactly when every configure is accepted, and then has sent one request per entry in order; otherwise it has sent a prefix of those requests in which every request but the last was accepted and the last was refused |
| `Scenarios.SetOnFreshFixture` | relay_lib/board_control.py:93-103 | `gpio_set` sends a request exactly when the name resolves to an "out" entry; a rejected call returns False and sends nothing |
| `Scenarios.GetOnFreshFixture` | relay_lib/board_control.py:105-116 | `gpio_get` sends a request exactly when the name resolves to an "in" entry; a rejected call returns None and sends nothing |

## Left out

- `config_set`, `config_get` and `gpio_pin_get_all` (relay_lib/board_control.py:28-45, 74-79) pass requests and replies straight through to the transport and hold no logic.
- The `dbug` parameter and the `print` diagnostics are console output only.
- The transport's own behaviour (`test_comm` is not part of this model) is left open. It is an arbitrary function of the request history.
- `PinMap.PinFromConfig`: only the missing-`active_hi` default of line 22 is modelled. `gpio_set` and `gpio_get` index `active_hi` directly and would raise `KeyError` on a missing key; here `activeHi` is a required field. Python truthiness of non-boolean `active_hi` values is not modelled.
- A missing `gpio_num`, `dir` or `name` key, a missing `active` field in a `gpio-get` reply, and the `gpio_map=None` default would raise in Python. The model's records always have these fields, and the map is always a sequence.
- `RelayLib.BoardControl.GpioGet`: a failed read on an active-low pin returns None, not the True that line 116 produces (see Findings).

## Findings

| source | as written | input that shows it | evidently intended | confidence | as-written member | corrected member |
|---|---|---|---|---|---|---|
| relay_lib/board_control.py:115-116 | `not is_high` is applied to the read even when `gpio_pin_get` returned None, and `not None` is True | an active-low input pin (`active_hi` False) whose `gpio-get` gets no reply: `gpio_get` returns True ("active") | the failed read propagates as None, as it does for active-high pins and as the declared return type `bool\|None` suggests | high, not executed | `PinMap.FailedReadOnActiveLowReportsActive` | `PinMap.ToLogicalRead` |
