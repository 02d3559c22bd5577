/**
  `check_replay_buffer`: bring the replay buffer in line with the presence
  of the configured applications. The buffer's state and the presence
  answer are inputs; the decision is at most one start or stop request.
 */
module Reconcile {
  import opened Wrappers

  datatype Action = StartBuffer | StopBuffer | NoAction

  /** Python truthiness of the presence answer: `None` and `False` are both falsy. */
  predicate Truthy(presence: Option<bool>)
  {
    presence == Some(true)
  }

  /** The one request, if any, issued for this presence answer and buffer state. */
  function CheckReplayBuffer(presence: Option<bool>, active: bool): (action: Action)
    ensures action == StartBuffer <==> Truthy(presence) && !active
    ensures action == StopBuffer <==> !Truthy(presence) && active
    ensures action == NoAction <==> Truthy(presence) == active
  {
    if Truthy(presence) then
      if !active then StartBuffer else NoAction
    else
      if active then StopBuffer else NoAction
  }

  /** The buffer state once a request has taken effect. */
  function Apply(action: Action, active: bool): (after: bool)
    ensures action == StartBuffer ==> after
    ensures action == StopBuffer ==> !after
    ensures action == NoAction ==> after == active
  {
    match action
    case StartBuffer => true
    case StopBuffer => false
    case NoAction => active
  }

  /** Once its request takes effect, the buffer is on exactly when an application is running. */
  lemma CheckConverges(presence: Option<bool>, active: bool)
    ensures Apply(CheckReplayBuffer(presence, active), active) == Truthy(presence)
  {
  }

  /** An immediate second check with the same presence answer issues nothing. */
  lemma CheckSettles(presence: Option<bool>, active: bool)
    ensures CheckReplayBuffer(presence, Apply(CheckReplayBuffer(presence, active), active)) == NoAction
  {
    CheckConverges(presence, active);
  }

  /** With no configured paths the check never starts the buffer, and stops it when it is on. */
  lemma EmptyPathListOnlyStops(active: bool)
    ensures CheckReplayBuffer(None, active) == (if active then StopBuffer else NoAction)
  {
  }
}
