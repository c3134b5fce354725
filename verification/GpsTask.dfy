// One turn of the supervisor task (components/gps_clock/gps_clock_supervisor.c): the parser, the
// capture layer and the ladder in the order the loop runs them.
module GpsTask {
  import opened Nmea
  import opened Ladder
  import opened ClockRuns
  import LadderClock
  import Pps

  // The three objects take the joint step of ClockRuns.Turn on what the parser has published; on
  // NMEA_FIX the clock is the label of the last sentence of this turn with a time and a date.
  method TaskTurn(parser: Parser, capture: Pps.Capture, supervisor: Supervisor, bytes: nat, sentences: seq<Sentence>,
                  readable: bool, cap: nat, pcnt: int, tickUs: int, nowUs: int, ghost counter: nat, ghost sys: System)
      returns (ghost r: Reading)
    requires parser.Valid() && capture.active && forall i :: 0 <= i < |sentences| ==> Timed(sentences[i])
    requires sys.estimator == capture.Value() && sys.ladder == supervisor.Value() && Inv(sys)
    modifies parser, capture, supervisor
    ensures parser.Valid() && r == Reading(parser.signals, readable, cap, pcnt, counter, tickUs, nowUs)
    ensures capture.Value() == Turn(sys, r).estimator && supervisor.Value() == Turn(sys, r).ladder && Inv(Turn(sys, r))
    ensures supervisor.quality == NMEA_FIX ==>
              forall k :: 0 <= k < |sentences| && LastDated(sentences, k) ==>
                supervisor.clock == Snapshot(NMEA_FIX, LabelAt(sentences[k]), 30000000, true)
  {
    hide Timed, LabelAt, Pps.Next, Tick, Pps.Inv;
    parser.Feed(bytes, sentences);
    r := Reading(parser.signals, readable, cap, pcnt, counter, tickUs, nowUs);
    ParserUsable(parser);
    TurnInv(sys, r);
    LadderClock.TickPublishes(sys.ladder, InputOf(sys.estimator, r));
    var edges := capture.Tick(readable, Pps.Input(cap, pcnt, parser.signals.fixValid, parser.signals.rmcSecond, tickUs));
    supervisor.TaskTick(parser.signals, edges, nowUs);
  }

  lemma ParserUsable(parser: Parser)
    requires parser.Valid()
    ensures Usable(parser.signals)
  {
  }
}
