/**
 * Clients of `BoardControl` on a freshly built transport: what a test sequence
 * can conclude from the board layer's contracts alone.
 */
module Scenarios {
  import opened Wrappers
  import opened TestComm
  import opened PinMap
  import opened RelayLib

  /** `log[k]` drives gpio `src`. */
  predicate DrivesAt(log: seq<Request>, src: int, k: int)
    requires 0 <= k < |log|
  {
    log[k].GpioSetReq? && log[k].gpio == src
  }

  /** Level of the latest `gpio-set` on `src` in `log`, or None if it was never driven. */
  function LastDriven(log: seq<Request>, src: int): (level: Option<bool>)
    ensures level.Some? ==> exists k :: 0 <= k < |log| && log[k] == GpioSetReq(src, level.value)
                                        && forall j :: k < j < |log| ==> !DrivesAt(log, src, j)
    ensures level.None? ==> forall b :: GpioSetReq(src, b) !in log
  {
    if log == [] then None
    else
      var last := log[|log| - 1];
      assert log == log[..|log| - 1] + [last];
      if last.GpioSetReq? && last.gpio == src then Some(last.active)
      else
        var earlier := LastDriven(log[..|log| - 1], src);
        assert forall j :: 0 <= j < |log| - 1 ==> DrivesAt(log[..|log| - 1], src, j) == DrivesAt(log, src, j);
        assert !DrivesAt(log, src, |log| - 1);
        earlier
  }

  /**
   * Replies of a loopback transport: every read sees the level last driven on
   * `src` (acceptance of requests is a separate oracle).
   */
  function Loopback(src: int): (seq<Request>, Request) -> Option<Response>
  {
    (h: seq<Request>, r: Request) =>
      match LastDriven(h, src)
      case None => None
      case Some(b) => Some(Response(b))
  }

  /**
   * Through a loopback from output `outName` to input `inName`, `gpio_get`
   * returns what `gpio_set` wrote when both pins share a polarity, and its
   * negation when they differ.
   */
  method LoopbackRoundTrip(m: seq<Pin>, outName: string, inName: string, x: bool) returns (readBack: Option<bool>)
    requires Resolve(m, outName, "out").Resolved? && Resolve(m, inName, "in").Resolved?
    ensures var po, pi := Resolve(m, outName, "out").pin, Resolve(m, inName, "in").pin;
      readBack == Some(if po.activeHi == pi.activeHi then x else !x)
  {
    var po := Resolve(m, outName, "out").pin;
    var api := new TesterApi((h: seq<Request>, r: Request) => true, Loopback(po.gpio));
    var board := new BoardControl(api, m);
    var written := board.GpioSet(outName, x);
    assert LastDriven(api.log, po.gpio) == Some(ApplyPolarity(x, po.activeHi));
    readBack := board.GpioGet(inName);
  }

  /**
   * The map `[RLY1: gpio 5, out, active-low]` on a transport that accepts
   * everything: initialisation configures gpio 5 as "out" starting high, and
   * setting RLY1 active drives gpio 5 low.
   */
  method RelayScenario() returns (initOk: bool, setOk: bool, sent: seq<Request>)
    ensures initOk && setOk
    ensures sent == [GpioConfReq(5, "out", true, false, false), GpioSetReq(5, false)]
  {
    var api := new TesterApi((h: seq<Request>, r: Request) => true, (h: seq<Request>, r: Request) => None);
    var board := new BoardControl(api, [Pin("RLY1", 5, "out", false)]);
    initOk := board.Initialize();
    setOk := board.GpioSet("RLY1", true);
    sent := api.log;
  }

  /**
   * Initialisation on a fresh transport: True exactly when every configuration
   * is accepted, and then one request per entry in map order; otherwise the
   * requests up to and including the first refused one.
   */
  method InitializeOnFreshFixture(m: seq<Pin>, ack: (seq<Request>, Request) -> bool) returns (ok: bool, sent: seq<Request>)
    ensures ok <==> forall i :: 0 <= i < |m| ==> Accepted(ack, [], ConfRequests(m), i)
    ensures ok ==> sent == ConfRequests(m)
    ensures !ok ==>
      && 1 <= |sent| <= |m|
      && sent == ConfRequests(m)[..|sent|]
      && (forall i :: 0 <= i < |sent| - 1 ==> Accepted(ack, [], ConfRequests(m), i))
      && !Accepted(ack, [], ConfRequests(m), |sent| - 1)
  {
    var api := new TesterApi(ack, (h: seq<Request>, r: Request) => None);
    var board := new BoardControl(api, m);
    ok := board.Initialize();
    sent := api.log;
    InitOutcomeExplained(ack, [], m);
    RunInitSendsPrefix(ack, [], m);
    if ok {
      InitAllAccepted(ack, [], m);
    }
  }

  /** `gpio_set` on a fresh transport sends a request exactly when the name resolves to an output. */
  method SetOnFreshFixture(m: seq<Pin>, name: string, active: bool, ack: (seq<Request>, Request) -> bool)
    returns (ok: bool, sent: seq<Request>)
    ensures Resolve(m, name, "out").Resolved? <==> sent != []
    ensures sent == [] ==> !ok
    ensures sent != [] ==> var p := Resolve(m, name, "out").pin;
      sent == [GpioSetReq(p.gpio, ApplyPolarity(active, p.activeHi))] && ok == ack([], sent[0])
  {
    var api := new TesterApi(ack, (h: seq<Request>, r: Request) => None);
    var board := new BoardControl(api, m);
    ok := board.GpioSet(name, active);
    sent := api.log;
  }

  /** `gpio_get` on a fresh transport sends a request exactly when the name resolves to an input. */
  method GetOnFreshFixture(m: seq<Pin>, name: string, respond: (seq<Request>, Request) -> Option<Response>)
    returns (active: Option<bool>, sent: seq<Request>)
    ensures Resolve(m, name, "in").Resolved? <==> sent != []
    ensures sent == [] ==> active == None
    ensures sent != [] ==> var p := Resolve(m, name, "in").pin;
      sent == [GpioGetReq(p.gpio)]
      && active == ToLogicalRead(ResponseLevel(respond([], GpioGetReq(p.gpio))), p.activeHi)
  {
    var api := new TesterApi((h: seq<Request>, r: Request) => true, respond);
    var board := new BoardControl(api, m);
    active := board.GpioGet(name);
    sent := api.log;
  }
}
