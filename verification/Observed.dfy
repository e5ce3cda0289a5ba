/**
 What clients observe: the service, with its messages, its ring and its two threads, and the code
 on linked lists answer every history of calls as the reference does.
 */
module Observed {
  import opened Namespace
  import opened Invariant
  import opened Reference
  import opened Views
  import opened Refinement
  import opened Delivery
  import opened Calls
  import opened Service
  import Runs
  import Volume
  import Persist
  import Restart

  /** For any run of the service on contiguous requests: there is a run of the reference from what
      the tables showed at the start, on the calls in their order, whose replies are the answers
      that the clients were sent, each under the number of its call. */
  lemma ServiceAnswers(states: seq<Srv>, events: seq<SrvEvent>, fs: Tables, calls: seq<Call>, tags: seq<nat>,
                       size: nat, i: nat) returns (fss: seq<Fs>, replies: seq<Reply>)
    requires ServiceRun(states, events, fs, calls, tags, size) && i <= |events|
    requires Contiguous(Requests(calls), [], tags)
    requires Inv(fs) && Running(states[i]) && Runs.AllSafe(states[i].trace, states[i].log)
    ensures ReferenceRun(fss, states[i].log, replies) && fss[0] == View(fs)
    ensures |replies| == |states[i].replies| <= |calls|
    ensures forall k :: 0 <= k < |replies| ==>
              states[i].log[k].op == calls[k].op && states[i].replies[k] == (calls[k].seqno, replies[k])
  {
    var s := states[i];
    CallsInOrder(states, events, fs, calls, tags, size, i);
    fss, replies := RunRefines(s.trace, s.log);
    forall k | 0 <= k < |replies|
      ensures s.log[k].op == calls[k].op && s.replies[k] == (calls[k].seqno, replies[k])
    {
      assert AsCalled(s, calls, k) && Replied(s.trace[k], s.log[k], replies[k]);
    }
  }

  /** The replies that the code on linked lists gives over a safe run are those of the reference. */
  lemma CodeAnswers(states: seq<State>, events: seq<Runs.Event>, replies: seq<Reply>)
    returns (fss: seq<Fs>)
    requires Runs.IsRun(states, events) && Inv(states[0]) && Runs.AllSafe(states, events)
    requires Volume.Answered(states, events, replies)
    ensures ReferenceRun(fss, events, replies) && |fss| == |states|
    ensures forall k :: 0 <= k < |states| ==> fss[k] == View(states[k])
  {
    var answers;
    fss, answers := RunRefines(states, events);
    assert forall k :: 0 <= k < |events| ==> Replied(states[k], events[k], answers[k]);
    assert answers == replies;
  }

  /** A stop and a start: clients find everything as it was, with no handle open. */
  lemma RestartShows(s: State, s': State)
    requires Inv(s) && Persist.Storable(s) && Restart.Restarts(s, s')
    ensures View(s') == View(s).(handles := map[])
  {
    Restart.RestartIs(s, s');
  }
}
