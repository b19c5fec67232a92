/**
  The broadcast timer as a flag guarded by the socket's connection state
  (`startTimer`, `stopTimer`, and the connect and disconnect listeners).
  The schedule itself, every 3000 milliseconds after an initial delay of
  the same length, runs on a timer thread and is not modelled.
*/
module Timer {

  /** `connected` is `mSocket.connected()`; `timer` is `mTimer != null`. */
  datatype Link = Link(connected: bool, timer: bool)

  /** `startTimer`: no-op when a timer exists or the socket is disconnected. */
  function StartTimer(l: Link): (r: Link)
    ensures r.connected == l.connected
    ensures l.timer || !l.connected ==> r == l
    ensures r.timer <==> l.timer || l.connected
  {
    if l.timer || !l.connected then l else l.(timer := true)
  }

  /** `stopTimer`: cancels and forgets the timer, if any. */
  function StopTimer(l: Link): (r: Link)
    ensures r.connected == l.connected
    ensures !r.timer
    ensures !l.timer ==> r == l
  {
    if l.timer then l.(timer := false) else l
  }

  /** The `EVENT_CONNECT` listener: the socket is now connected and the timer is started. */
  function OnConnect(l: Link): (r: Link)
    ensures r.connected && r.timer
  {
    StartTimer(l.(connected := true))
  }

  /** The `EVENT_DISCONNECT` listener: the socket is now disconnected and the timer is stopped. */
  function OnDisconnect(l: Link): (r: Link)
    ensures !r.connected && !r.timer
  {
    StopTimer(l.(connected := false))
  }

  /** A timer exists only while the socket is connected. */
  predicate TimerOnlyWhileConnected(l: Link) {
    l.timer ==> l.connected
  }

  /** Every transition keeps the timer confined to connected periods. */
  lemma TransitionsKeepTimerConfined(l: Link)
    requires TimerOnlyWhileConnected(l)
    ensures TimerOnlyWhileConnected(StartTimer(l))
    ensures TimerOnlyWhileConnected(StopTimer(l))
    ensures TimerOnlyWhileConnected(OnConnect(l))
    ensures TimerOnlyWhileConnected(OnDisconnect(l))
  {
  }

  /** Starting twice schedules one timer; stopping twice is a no-op the second time. */
  lemma StartAndStopAreIdempotent(l: Link)
    ensures StartTimer(StartTimer(l)) == StartTimer(l)
    ensures StopTimer(StopTimer(l)) == StopTimer(l)
  {
  }
}
