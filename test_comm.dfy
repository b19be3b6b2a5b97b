/**
 * Stand-in for the fixture transport (`testerApi` of the `test_comm` package).
 * The real transport is foreign code; here it is an object that records every
 * request it is sent, in order, and answers from two oracle functions that may
 * depend on everything sent before.  The transport carries no decision logic.
 */
module TestComm {
  import opened Wrappers

  /** The requests the board layer sends: `gpio-conf`, `gpio-set`, `gpio-get`. */
  datatype Request =
    | GpioConfReq(gpio: int, mode: string, istate: bool, pullUpEn: bool, pullDownEn: bool)
    | GpioSetReq(gpio: int, active: bool)
    | GpioGetReq(gpio: int)

  /** The structured reply to `gpio-get`: its `active` field is the electrical level. */
  datatype Response = Response(active: bool)

  class TesterApi {
    /** Every request issued so far, oldest first. */
    var log: seq<Request>
    /** Success signal of `command_no_resp`, given the history and the request. */
    const ack: (seq<Request>, Request) -> bool
    /** Reply of `command` (None: no response), given the history and the request. */
    const respond: (seq<Request>, Request) -> Option<Response>

    constructor (ack: (seq<Request>, Request) -> bool, respond: (seq<Request>, Request) -> Option<Response>)
      ensures log == [] && this.ack == ack && this.respond == respond
    {
      this.log := [];
      this.ack := ack;
      this.respond := respond;
    }

    /** `command_no_resp`: send a request, report the transport's success signal. */
    method CommandNoResp(req: Request) returns (ok: bool)
      modifies this
      ensures log == old(log) + [req]
      ensures ok == ack(old(log), req)
    {
      ok := ack(log, req);
      log := log + [req];
    }

    /** `command`: send a request, return the structured reply or None. */
    method Command(req: Request) returns (resp: Option<Response>)
      modifies this
      ensures log == old(log) + [req]
      ensures resp == respond(old(log), req)
    {
      resp := respond(log, req);
      log := log + [req];
    }
  }
}
