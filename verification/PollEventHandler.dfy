/** `PollEventHandler`: what a file descriptor is polled for, and whether it is to be closed. */
module PollEventHandlerModule {

  datatype Events = Events(pollin: bool, pollout: bool)

  const NO_EVENTS := Events(false, false)

  /** An entry for `poll`. */
  datatype PollFd = PollFd(fd: int, events: Events, revents: Events)

  /** `poll` reports nothing that was not asked for. */
  function Revents(asked: Events, ready: Events): Events {
    Events(asked.pollin && ready.pollin, asked.pollout && ready.pollout)
  }

  class PollEventHandler {
    const mFd: int
    var mLoopIdx: int
    var events: Events       // mPollFd.events
    var revents: Events      // mPollFd.revents
    var mIsClosing: bool
    var mIsClosed: bool

    constructor (fd: int)
      ensures mFd == fd && mLoopIdx == -1 && events == NO_EVENTS && !mIsClosing && !mIsClosed
    {
      mFd, mLoopIdx := fd, -1;
      events, revents, mIsClosing, mIsClosed := NO_EVENTS, NO_EVENTS, false, false;
    }

    function GetPollFd(): PollFd
      reads `events, `revents
    {
      PollFd(mFd, events, revents)
    }

    method EnableRead(en: bool)
      modifies `events
      ensures events == old(events).(pollin := en)
    {
      events := events.(pollin := en);
    }

    method EnableWrite(en: bool)
      modifies `events
      ensures events == old(events).(pollout := en)
    {
      events := events.(pollout := en);
    }

    method SetClosing(en: bool)
      modifies `mIsClosing
      ensures mIsClosing == en
    {
      mIsClosing := en;
    }
  }
}
