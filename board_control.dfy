/**
 * `boardControl`: a façade over the fixture transport that maps symbolic pin
 * names to GPIO numbers.  Its transport handle and GPIO map are fixed at
 * construction; every operation is judged by the requests it appends to the
 * transport's log and by what it returns.
 */
module RelayLib {
  import opened Wrappers
  import opened TestComm
  import opened PinMap

  class BoardControl {
    const fixApi: TesterApi
    const gpioMap: seq<Pin>

    constructor (fixApi: TesterApi, gpioMap: seq<Pin>)
      ensures this.fixApi == fixApi && this.gpioMap == gpioMap
    {
      this.fixApi := fixApi;
      this.gpioMap := gpioMap;
    }

    /**
     * Configure every pin of the map, in map order, driven to its inactive
     * level; stop at the first refusal without undoing earlier pins.
     */
    method Initialize() returns (ok: bool)
      modifies fixApi
      ensures var run := RunInit(fixApi.ack, old(fixApi.log), gpioMap);
        fixApi.log == old(fixApi.log) + run.issued && ok == run.ok
    {
      ghost var h0 := fixApi.log;
      InitProgressStart(fixApi.ack, h0, gpioMap);
      var i := 0;
      while i < |gpioMap|
        invariant 0 <= i <= |gpioMap|
        invariant InitProgress(fixApi.ack, h0, gpioMap, i, fixApi.log)
      {
        var item := gpioMap[i];
        var istate := !item.activeHi;
        ghost var before := fixApi.log;
        var configured := GpioPinConf(item.gpio, item.dir, istate, false, false);
        if !configured {
          InitStepRefused(fixApi.ack, h0, gpioMap, i, before);
          return false;
        }
        InitStepAccepted(fixApi.ack, h0, gpioMap, i, before);
        i := i + 1;
      }
      InitProgressEnd(fixApi.ack, h0, gpioMap, fixApi.log);
      return true;
    }

    /** `gpio_pin_conf`: issue one `gpio-conf` with the five parameters verbatim. */
    method GpioPinConf(gpio: int, mode: string, istate: bool, pullUpEn: bool, pullDownEn: bool) returns (ok: bool)
      modifies fixApi
      ensures fixApi.log == old(fixApi.log) + [GpioConfReq(gpio, mode, istate, pullUpEn, pullDownEn)]
      ensures ok == fixApi.ack(old(fixApi.log), GpioConfReq(gpio, mode, istate, pullUpEn, pullDownEn))
    {
      ok := fixApi.CommandNoResp(GpioConfReq(gpio, mode, istate, pullUpEn, pullDownEn));
    }

    /** `gpio_pin_set`: issue one `gpio-set` with the literal electrical level. */
    method GpioPinSet(gpio: int, active: bool) returns (ok: bool)
      modifies fixApi
      ensures fixApi.log == old(fixApi.log) + [GpioSetReq(gpio, active)]
      ensures ok == fixApi.ack(old(fixApi.log), GpioSetReq(gpio, active))
    {
      ok := fixApi.CommandNoResp(GpioSetReq(gpio, active));
    }

    /** `gpio_pin_get`: issue one `gpio-get`; None when the transport gives no reply. */
    method GpioPinGet(gpio: int) returns (level: Option<bool>)
      modifies fixApi
      ensures fixApi.log == old(fixApi.log) + [GpioGetReq(gpio)]
      ensures level == ResponseLevel(fixApi.respond(old(fixApi.log), GpioGetReq(gpio)))
    {
      var resp := fixApi.Command(GpioGetReq(gpio));
      if resp == None {
        return None;
      }
      return Some(resp.value.active);
    }

    /** `_find_gpio_desc`: linear scan of the map, first entry called `name` wins. */
    method FindGpioDesc(name: string) returns (desc: Option<Pin>)
      ensures desc.None? <==> NoneNamed(gpioMap, name)
      ensures desc.Some? ==> exists i :: 0 <= i < |gpioMap| && gpioMap[i] == desc.value
                                         && desc.value.name == name && NoneNamedBefore(gpioMap, name, i)
      ensures desc == Lookup(gpioMap, name)
    {
      var i := 0;
      while i < |gpioMap|
        invariant 0 <= i <= |gpioMap|
        invariant NoneNamedBefore(gpioMap, name, i)
      {
        if name == gpioMap[i].name {
          LookupFirstMatchWins(gpioMap, name, i);
          return Some(gpioMap[i]);
        }
        i := i + 1;
      }
      return None;
    }

    /**
     * `gpio_set`: drive the named output pin to the level that means `active`.
     * An unknown name or a `dir` other than "out" gives False with no request sent.
     */
    method GpioSet(name: string, active: bool) returns (ok: bool)
      modifies fixApi
      ensures match Resolve(gpioMap, name, "out")
        case Resolved(p) =>
          var req := GpioSetReq(p.gpio, ApplyPolarity(active, p.activeHi));
          fixApi.log == old(fixApi.log) + [req] && ok == fixApi.ack(old(fixApi.log), req)
        case _ => fixApi.log == old(fixApi.log) && !ok
    {
      var desc := FindGpioDesc(name);
      if desc == None {
        return false;
      }
      if desc.value.dir != "out" {
        return false;
      }
      var gpio := desc.value.gpio;
      var setHigh := if desc.value.activeHi then active else !active;
      ok := GpioPinSet(gpio, setHigh);
    }

    /**
     * `gpio_get`: read the named input pin as a logical state.  An unknown name,
     * a `dir` other than "in", or a read with no reply gives None; only an unknown
     * name or a wrong direction leaves the transport untouched.
     */
    method GpioGet(name: string) returns (active: Option<bool>)
      modifies fixApi
      ensures match Resolve(gpioMap, name, "in")
        case Resolved(p) =>
          fixApi.log == old(fixApi.log) + [GpioGetReq(p.gpio)]
          && active == ToLogicalRead(ResponseLevel(fixApi.respond(old(fixApi.log), GpioGetReq(p.gpio))), p.activeHi)
        case _ => fixApi.log == old(fixApi.log) && active == None
    {
      var desc := FindGpioDesc(name);
      if desc == None {
        return None;
      }
      if desc.value.dir != "in" {
        return None;
      }
      var gpio := desc.value.gpio;
      var isHigh := GpioPinGet(gpio);
      if isHigh == None {
        return None;
      }
      return Some(if desc.value.activeHi then isHigh.value else !isHigh.value);
    }
  }
}
