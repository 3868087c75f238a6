/** Event masks (src/reactor/Event.h, src/reactor/Event.cpp:12-25): the bits of an epoll mask, as a set of flags. */
module Events {

  datatype Flag = In | Pri | Out | Err | Hup | RdHup

  type Mask = set<Flag>

  /** `enableWrite`. */
  function WithWrite(events: Mask, on: bool): Mask {
    if on then events + {Out} else events - {Out}
  }
}
