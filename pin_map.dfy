/**
 * The pure decision logic of the board layer: pin descriptors, first-match
 * lookup by name, the literal direction checks, the active-high/active-low
 * polarity translation, and the specification of what `initialize` sends.
 */
module PinMap {
  import opened Wrappers
  import opened TestComm

  /** One entry of the GPIO map; `dir` keeps the raw direction string. */
  datatype Pin = Pin(name: string, gpio: int, dir: string, activeHi: bool)

  /**
   * A map entry built from its configuration record, where `active_hi` may be
   * absent; an absent `active_hi` reads as False.
   */
  function PinFromConfig(name: string, gpio: int, dir: string, activeHi: Option<bool>): (p: Pin)
    ensures p.name == name && p.gpio == gpio && p.dir == dir
    ensures p.activeHi <==> activeHi == Some(true)
  {
    Pin(name, gpio, dir, match activeHi case Some(b) => b case None => false)
  }

  /** No entry of `m` before position `k` is called `name`. */
  predicate NoneNamedBefore(m: seq<Pin>, name: string, k: int)
  {
    forall j :: 0 <= j < k && j < |m| ==> m[j].name != name
  }

  /** No entry of `m` is called `name`. */
  predicate NoneNamed(m: seq<Pin>, name: string)
  {
    NoneNamedBefore(m, name, |m|)
  }

  // ---------------------------------------------------------------- lookup

  /** Position of the first entry called `name`, scanning in map order. */
  function FindIndex(m: seq<Pin>, name: string): (r: Option<nat>)
    ensures r.Some? ==> r.value < |m| && m[r.value].name == name && NoneNamedBefore(m, name, r.value)
    ensures r.None? <==> NoneNamed(m, name)
  {
    if m == [] then None
    else if m[0].name == name then Some(0)
    else
      match FindIndex(m[1..], name)
      case None => None
      case Some(i) => Some(i + 1)
  }

  /** The descriptor `_find_gpio_desc` returns: the first entry called `name`, or None. */
  function Lookup(m: seq<Pin>, name: string): (d: Option<Pin>)
    ensures d.None? <==> NoneNamed(m, name)
    ensures d.Some? ==> d.value in m && d.value.name == name
  {
    match FindIndex(m, name)
    case None => None
    case Some(i) => Some(m[i])
  }

  /** With duplicate names the earliest entry wins. */
  lemma LookupFirstMatchWins(m: seq<Pin>, name: string, i: nat)
    requires i < |m| && m[i].name == name
    requires NoneNamedBefore(m, name, i)
    ensures Lookup(m, name) == Some(m[i])
  {
    var r := FindIndex(m, name);
    assert !NoneNamed(m, name);
  }

  // ------------------------------------------------------ direction checks

  /**
   * Outcome of resolving a name for an operation that needs direction `want`:
   * the pin is absent, its `dir` differs from `want`, or it is usable.
   */
  datatype Resolution = UnknownPin | DirectionMismatch(pin: Pin) | Resolved(pin: Pin)

  function Resolve(m: seq<Pin>, name: string, want: string): (r: Resolution)
    ensures r.UnknownPin? <==> NoneNamed(m, name)
    ensures r.DirectionMismatch? ==> Lookup(m, name) == Some(r.pin) && r.pin.dir != want
    ensures r.Resolved? ==> Lookup(m, name) == Some(r.pin) && r.pin.dir == want
  {
    match Lookup(m, name)
    case None => UnknownPin
    case Some(p) => if p.dir != want then DirectionMismatch(p) else Resolved(p)
  }

  /** A name usable for output is rejected for input, and the other way round. */
  lemma OutputAndInputExclusive(m: seq<Pin>, name: string)
    ensures Resolve(m, name, "out").Resolved? ==> Resolve(m, name, "in").DirectionMismatch?
    ensures Resolve(m, name, "in").Resolved? ==> Resolve(m, name, "out").DirectionMismatch?
  {
    assert "out" != "in" by { assert "out"[0] != "in"[0]; }
  }

  // -------------------------------------------------------------- polarity

  /**
   * Polarity translation, the same in both directions: a logical state becomes
   * an electrical level, and a level read back becomes a logical state, by
   * keeping the value on an active-high pin and negating it on an active-low one.
   */
  function ApplyPolarity(x: bool, activeHi: bool): (y: bool)
    ensures y <==> (x <==> activeHi)
  {
    if activeHi then x else !x
  }

  /** For a fixed polarity, translating a state and translating it back gives the state again. */
  lemma PolarityRoundTrip(x: bool, activeHi: bool)
    ensures ApplyPolarity(ApplyPolarity(x, activeHi), activeHi) == x
  {
  }

  /** The level `gpio_pin_get` extracts from a `gpio-get` reply: its `active` field, or None. */
  function ResponseLevel(resp: Option<Response>): (level: Option<bool>)
    ensures level.None? <==> resp.None?
    ensures level.Some? ==> level.value == resp.value.active
  {
    match resp
    case None => None
    case Some(r) => Some(r.active)
  }

  /**
   * Logical state of a read that may have failed: a failed read stays None,
   * a successful one is translated by the pin's polarity.
   */
  function ToLogicalRead(read: Option<bool>, activeHi: bool): (r: Option<bool>)
    ensures r.None? <==> read.None?
    ensures read.Some? ==> r == Some(ApplyPolarity(read.value, activeHi))
  {
    match read
    case None => None
    case Some(level) => Some(ApplyPolarity(level, activeHi))
  }

  /** Python truthiness of a level that may be None. */
  function Truthy(read: Option<bool>): bool
  {
    read == Some(true)
  }

  /**
   * The get-path translation as written: `not is_high` is applied even when
   * `is_high` is None, and `not None` is True.
   */
  function ToLogicalAsWritten(read: Option<bool>, activeHi: bool): (r: Option<bool>)
    ensures activeHi ==> r == read
    ensures !activeHi ==> r == Some(!Truthy(read))
  {
    if activeHi then read else Some(!Truthy(read))
  }

  /** As written, a failed read on an active-low pin is reported as "active". */
  lemma FailedReadOnActiveLowReportsActive()
    ensures ToLogicalAsWritten(None, false) == Some(true)
    ensures ToLogicalRead(None, false) == None
  {
  }

  /** On an active-high pin a failed read reaches the caller as None, as written too. */
  lemma FailedReadOnActiveHighPropagates()
    ensures ToLogicalAsWritten(None, true) == None
  {
  }

  /** The corrected translation differs from the written one only on a failed read of an active-low pin. */
  lemma CorrectedAgreesExceptFailedActiveLow(read: Option<bool>, activeHi: bool)
    ensures ToLogicalRead(read, activeHi) == ToLogicalAsWritten(read, activeHi)
        <==> read.Some? || activeHi
  {
  }

  // ------------------------------------------------------- initialisation

  /** The `gpio-conf` request issued for one entry: its own `dir`, driven inactive, no pulls. */
  function ConfRequest(p: Pin): (req: Request)
    ensures req.GpioConfReq? && req.gpio == p.gpio && req.mode == p.dir
    ensures req.istate == ApplyPolarity(false, p.activeHi)
    ensures !req.pullUpEn && !req.pullDownEn
  {
    GpioConfReq(p.gpio, p.dir, !p.activeHi, false, false)
  }

  /** A pin whose `active_hi` is missing is configured with initial state True. */
  lemma MissingActiveHiStartsHigh(name: string, gpio: int, dir: string)
    ensures ConfRequest(PinFromConfig(name, gpio, dir, None)).istate
  {
  }

  /** The requests of a complete initialisation, one per entry, in map order. */
  function ConfRequests(m: seq<Pin>): (rs: seq<Request>)
    ensures |rs| == |m|
    ensures forall i :: 0 <= i < |m| ==> rs[i] == ConfRequest(m[i])
  {
    seq(|m|, i requires 0 <= i < |m| => ConfRequest(m[i]))
  }

  /** What initialisation sends and whether it reports success. */
  datatype InitRun = InitRun(issued: seq<Request>, ok: bool)

  /**
   * Initialisation of `m` against a transport whose history so far is `h`:
   * configure entries in order and stop at the first one the transport refuses.
   */
  function RunInit(ack: (seq<Request>, Request) -> bool, h: seq<Request>, m: seq<Pin>): (r: InitRun)
    ensures |r.issued| <= |m|
    ensures r.ok ==> |r.issued| == |m|
    ensures !r.ok ==> |r.issued| >= 1
    decreases |m|
  {
    if m == [] then InitRun([], true)
    else
      var c := ConfRequest(m[0]);
      if !ack(h, c) then InitRun([c], false)
      else
        var rest := RunInit(ack, h + [c], m[1..]);
        InitRun([c] + rest.issued, rest.ok)
  }

  /** Initialisation sends the per-entry requests in map order, each at most once: a prefix of `ConfRequests(m)`. */
  lemma {:induction false} RunInitSendsPrefix(ack: (seq<Request>, Request) -> bool, h: seq<Request>, m: seq<Pin>)
    ensures var r := RunInit(ack, h, m); r.issued == ConfRequests(m)[..|r.issued|]
    decreases |m|
  {
    if m != [] {
      var c := ConfRequest(m[0]);
      var rs := ConfRequests(m);
      assert rs == [c] + ConfRequests(m[1..]);
      if ack(h, c) {
        RunInitSendsPrefix(ack, h + [c], m[1..]);
        var rest := RunInit(ack, h + [c], m[1..]);
        assert rs[..1 + |rest.issued|] == [c] + ConfRequests(m[1..])[..|rest.issued|];
      } else {
        assert rs[..1] == [c];
      }
    }
  }

  /** A run whose first `i` requests `pre` have already been sent. */
  function Resumed(pre: seq<Request>, rest: InitRun): InitRun
  {
    InitRun(pre + rest.issued, rest.ok)
  }

  /**
   * Initialisation of `m` from history `h0` has sent its first `i` requests,
   * all accepted, and the transport's history is now `log`.
   */
  ghost predicate InitProgress(ack: (seq<Request>, Request) -> bool, h0: seq<Request>, m: seq<Pin>, i: nat, log: seq<Request>)
  {
    && i <= |m|
    && log == h0 + ConfRequests(m)[..i]
    && RunInit(ack, h0, m) == Resumed(ConfRequests(m)[..i], RunInit(ack, log, m[i..]))
  }

  /** Before the first request nothing has been sent. */
  lemma InitProgressStart(ack: (seq<Request>, Request) -> bool, h0: seq<Request>, m: seq<Pin>)
    ensures InitProgress(ack, h0, m, 0, h0)
  {
    assert ConfRequests(m)[..0] == [];
    assert m[0..] == m;
  }

  /** Sending the next request after `i` accepted ones: an accepted request is one more step done. */
  lemma InitStepAccepted(ack: (seq<Request>, Request) -> bool, h0: seq<Request>, m: seq<Pin>, i: nat, log: seq<Request>)
    requires i < |m| && InitProgress(ack, h0, m, i, log)
    requires ack(log, ConfRequest(m[i]))
    ensures InitProgress(ack, h0, m, i + 1, log + [ConfRequest(m[i])])
  {
    var rs := ConfRequests(m);
    var c := ConfRequest(m[i]);
    var tail := m[i..];
    assert tail[0] == m[i] && tail[1..] == m[i + 1..];
    var rest := RunInit(ack, log + [c], m[i + 1..]);
    assert RunInit(ack, log, tail) == InitRun([c] + rest.issued, rest.ok);
    assert rs[..i + 1] == rs[..i] + [c];
    assert rs[..i] + ([c] + rest.issued) == rs[..i + 1] + rest.issued;
  }

  /** Sending the next request after `i` accepted ones: a refused request ends the run with result False. */
  lemma InitStepRefused(ack: (seq<Request>, Request) -> bool, h0: seq<Request>, m: seq<Pin>, i: nat, log: seq<Request>)
    requires i < |m| && InitProgress(ack, h0, m, i, log)
    requires !ack(log, ConfRequest(m[i]))
    ensures var run := RunInit(ack, h0, m); !run.ok && log + [ConfRequest(m[i])] == h0 + run.issued
  {
    var rs := ConfRequests(m);
    var c := ConfRequest(m[i]);
    var tail := m[i..];
    assert tail[0] == m[i];
    assert RunInit(ack, log, tail) == InitRun([c], false);
    assert rs[..i + 1] == rs[..i] + [c];
  }

  /** Once every entry has been sent, the run succeeded with exactly those requests. */
  lemma InitProgressEnd(ack: (seq<Request>, Request) -> bool, h0: seq<Request>, m: seq<Pin>, log: seq<Request>)
    requires InitProgress(ack, h0, m, |m|, log)
    ensures var run := RunInit(ack, h0, m); run.ok && log == h0 + run.issued
  {
    assert ConfRequests(m)[..|m|] == ConfRequests(m);
    assert m[|m|..] == [];
  }

  /** The transport accepts the `i`-th configuration request of `rs` after the `i` before it. */
  predicate Accepted(ack: (seq<Request>, Request) -> bool, h: seq<Request>, rs: seq<Request>, i: nat)
    requires i < |rs|
  {
    ack(h + rs[..i], rs[i])
  }

  /** Shifting the history by the first request relates acceptance in `rs` and in `rs[1..]`. */
  lemma AcceptedShift(ack: (seq<Request>, Request) -> bool, h: seq<Request>, rs: seq<Request>, i: nat)
    requires 0 < i < |rs|
    ensures Accepted(ack, h, rs, i) == Accepted(ack, h + [rs[0]], rs[1..], i - 1)
  {
    assert h + rs[..i] == (h + [rs[0]]) + rs[1..][..i - 1];
  }

  /** When every configuration is accepted, all N requests go out in map order and the result is True. */
  lemma {:induction false} InitAllAccepted(ack: (seq<Request>, Request) -> bool, h: seq<Request>, m: seq<Pin>)
    requires forall i :: 0 <= i < |m| ==> Accepted(ack, h, ConfRequests(m), i)
    ensures RunInit(ack, h, m) == InitRun(ConfRequests(m), true)
    decreases |m|
  {
    var rs := ConfRequests(m);
    if m != [] {
      assert Accepted(ack, h, rs, 0);
      assert h + rs[..0] == h;
      assert rs == [rs[0]] + rs[1..];
      assert rs[1..] == ConfRequests(m[1..]);
      forall i | 0 <= i < |m[1..]|
        ensures Accepted(ack, h + [rs[0]], ConfRequests(m[1..]), i)
      {
        AcceptedShift(ack, h, rs, i + 1);
      }
      InitAllAccepted(ack, h + [rs[0]], m[1..]);
    }
  }

  /**
   * When the `k`-th request (0-based) is the first one refused, exactly k + 1
   * requests are sent, none for the entries after it, and the result is False.
   */
  lemma {:induction false} InitStopsAtFirstRefusal(ack: (seq<Request>, Request) -> bool, h: seq<Request>, m: seq<Pin>, k: nat)
    requires k < |m|
    requires forall i :: 0 <= i < k ==> Accepted(ack, h, ConfRequests(m), i)
    requires !Accepted(ack, h, ConfRequests(m), k)
    ensures RunInit(ack, h, m) == InitRun(ConfRequests(m)[..k + 1], false)
    decreases |m|
  {
    var rs := ConfRequests(m);
    assert h + rs[..0] == h;
    if k == 0 {
      assert rs[..1] == [rs[0]];
    } else {
      assert Accepted(ack, h, rs, 0);
      assert rs[1..] == ConfRequests(m[1..]);
      forall i | 0 <= i < k - 1
        ensures Accepted(ack, h + [rs[0]], ConfRequests(m[1..]), i)
      {
        AcceptedShift(ack, h, rs, i + 1);
      }
      AcceptedShift(ack, h, rs, k);
      InitStopsAtFirstRefusal(ack, h + [rs[0]], m[1..], k - 1);
      assert rs[..k + 1] == [rs[0]] + rs[1..][..k];
    }
  }

  /**
   * Conversely, every run is one of those two: success means every request was
   * accepted; failure means the last request sent was refused and all before it accepted.
   */
  lemma {:induction false} InitOutcomeExplained(ack: (seq<Request>, Request) -> bool, h: seq<Request>, m: seq<Pin>)
    ensures var r := RunInit(ack, h, m);
      r.ok ==> forall i :: 0 <= i < |m| ==> Accepted(ack, h, ConfRequests(m), i)
    ensures var r := RunInit(ack, h, m);
      !r.ok ==>
        && (forall i :: 0 <= i < |r.issued| - 1 ==> Accepted(ack, h, ConfRequests(m), i))
        && !Accepted(ack, h, ConfRequests(m), |r.issued| - 1)
    decreases |m|
  {
    var rs := ConfRequests(m);
    if m != [] {
      assert h + rs[..0] == h;
      assert rs[1..] == ConfRequests(m[1..]);
      if ack(h, rs[0]) {
        InitOutcomeExplained(ack, h + [rs[0]], m[1..]);
        var rest := RunInit(ack, h + [rs[0]], m[1..]);
        forall i | 0 < i < |m|
          ensures Accepted(ack, h, rs, i) == Accepted(ack, h + [rs[0]], ConfRequests(m[1..]), i - 1)
        {
          AcceptedShift(ack, h, rs, i);
        }
      }
    }
  }
}
