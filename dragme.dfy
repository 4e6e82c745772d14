/**
 * The `/dragmee` command and its accept/reject prompt. The command runs a fixed
 * chain of checks and, when all pass, posts a prompt addressed to the target
 * with an Accept and a Reject button, backed by a `DragmeButtons` view that
 * captures the requester, the target and the target's voice channel. Button
 * clicks and the 30-second timeout are events; what the handlers do on the
 * platform (replies, the move, deleting or editing the prompt) is returned as a
 * list of effects.
 *
 * The handlers never record a decision and never stop the view, so nothing
 * here is a one-shot state machine: every event is handled the same way
 * however many came before it.
 */
module Dragme {
  import opened Wrappers
  import Decimal
  import Registry

  /** Seconds without a click before the view times out. */
  const TimeoutSeconds: nat := 30

  /** What the platform tells `/dragmee` about one invocation. */
  datatype Invocation = Invocation(
    guildId: nat,
    channelId: int,            // the channel the command was used in
    requester: nat,
    target: nat,
    canMoveMembers: bool,      // the bot's guild permissions
    canConnect: bool,
    requesterVoice: Option<nat>, // the voice channel each user is in, if any
    targetVoice: Option<nat>)

  datatype Refusal =
    | WrongChannel        // no intake channel, or not this one
    | MissingPermissions  // the bot may not move members or connect
    | RequesterNotInVoice
    | TargetNotInVoice
    | AlreadyTogether     // both users are in the same voice channel
    | UnexpectedError     // `int()` raised on the stored channel id

  datatype Decision = Refused(reason: Refusal) | Approved(targetChannel: nat)

  /** The guild's registered intake channel is the one the command came from. */
  predicate InIntakeChannel(channels: map<string, string>, inv: Invocation) {
    var key := Registry.GuildKey(inv.guildId);
    key in channels && Decimal.ParseInt(channels[key]) == Some(inv.channelId)
  }

  /** The guild has an entry that `int()` cannot read. */
  predicate IntakeIdUnreadable(channels: map<string, string>, inv: Invocation) {
    var key := Registry.GuildKey(inv.guildId);
    key in channels && Decimal.ParseInt(channels[key]).None?
  }

  predicate BotCanMove(inv: Invocation) {
    inv.canMoveMembers && inv.canConnect
  }

  /**
   * The checks of `/dragmee` in their order; the first that fails decides the
   * refusal, and only when all pass is a request created.
   */
  function CheckRequest(channels: map<string, string>, inv: Invocation): (d: Decision)
    ensures d.Approved? <==>
      && InIntakeChannel(channels, inv) && BotCanMove(inv)
      && inv.requesterVoice.Some? && inv.targetVoice.Some? && inv.requesterVoice != inv.targetVoice
    ensures d.Approved? ==> inv.targetVoice == Some(d.targetChannel)
    ensures d == Refused(UnexpectedError) <==> IntakeIdUnreadable(channels, inv)
    ensures d == Refused(WrongChannel) <==> !InIntakeChannel(channels, inv) && !IntakeIdUnreadable(channels, inv)
    ensures d == Refused(MissingPermissions) ==> InIntakeChannel(channels, inv) && !BotCanMove(inv)
    ensures d == Refused(RequesterNotInVoice) ==>
      InIntakeChannel(channels, inv) && BotCanMove(inv) && inv.requesterVoice.None?
    ensures d == Refused(TargetNotInVoice) ==>
      InIntakeChannel(channels, inv) && BotCanMove(inv) && inv.requesterVoice.Some? && inv.targetVoice.None?
    ensures d == Refused(AlreadyTogether) ==>
      InIntakeChannel(channels, inv) && BotCanMove(inv) && inv.targetVoice.Some? && inv.requesterVoice == inv.targetVoice
  {
    var key := Registry.GuildKey(inv.guildId);
    if key !in channels then Refused(WrongChannel)
    else if Decimal.ParseInt(channels[key]).None? then Refused(UnexpectedError)
    else if inv.channelId != Decimal.ParseInt(channels[key]).value then Refused(WrongChannel)
    else if !inv.canMoveMembers || !inv.canConnect then Refused(MissingPermissions)
    else if inv.requesterVoice.None? then Refused(RequesterNotInVoice)
    else if inv.targetVoice.None? then Refused(TargetNotInVoice)
    else if inv.requesterVoice.value == inv.targetVoice.value then Refused(AlreadyTogether)
    else Approved(inv.targetVoice.value)
  }

  /** The fields a `DragmeButtons` view holds, as a value. */
  datatype Request = Request(target: nat, requester: nat, channel: nat, prompt: Option<nat>)

  datatype Event =
    | Accept(actor: nat, moveSucceeds: bool) // a click on Accept; whether the move would work
    | Reject(actor: nat)                    // a click on Reject
    | Timeout                               // 30 seconds without a click

  datatype Notice =
    | CheckFailed(reason: Refusal)          // why `/dragmee` refused
    | RequestSent
    | NotAuthorizedToAccept
    | NotAuthorizedToReject
    | Moved(member: nat, channel: nat)
    | MoveError
    | RequestRejected(member: nat)

  datatype Effect =
    | Reply(notice: Notice, ephemeral: bool)        // a response to the interaction
    | PostPrompt(message: nat, target: nat, requester: nat) // the prompt with its buttons
    | AttemptMove(member: nat, channel: nat)        // `move_to`, which may fail
    | DeleteMessage(message: nat)
    | ExpireMessage(message: nat) // edited to "This request has timed out." with the buttons removed

  /** Every move goes to the requester and the captured channel; the prompt is the only message touched. */
  predicate WellAddressed(r: Request, effects: seq<Effect>) {
    forall i :: 0 <= i < |effects| ==>
      && (effects[i].AttemptMove? ==> effects[i] == AttemptMove(r.requester, r.channel))
      && (effects[i].DeleteMessage? ==> r.prompt == Some(effects[i].message))
      && (effects[i].ExpireMessage? ==> r.prompt == Some(effects[i].message))
  }

  /** The number of moves attempted in a list of effects. */
  function CountMoves(effects: seq<Effect>): (n: nat) {
    if |effects| == 0 then 0
    else (if effects[0].AttemptMove? then 1 else 0) + CountMoves(effects[1..])
  }

  function CleanUp(r: Request): (effects: seq<Effect>) {
    if r.prompt.Some? then [DeleteMessage(r.prompt.value)] else []
  }

  /** What the view does on one event. */
  function Handle(r: Request, e: Event): (effects: seq<Effect>)
    ensures WellAddressed(r, effects)
    ensures !e.Timeout? && e.actor != r.target ==>
      effects == [Reply(if e.Accept? then NotAuthorizedToAccept else NotAuthorizedToReject, true)]
    ensures e.Timeout? ==> effects == if r.prompt.Some? then [ExpireMessage(r.prompt.value)] else []
  {
    match e
    case Accept(actor, moveSucceeds) =>
      if actor != r.target then [Reply(NotAuthorizedToAccept, true)]
      else
        var notice := if moveSucceeds then Moved(r.requester, r.channel) else MoveError;
        [AttemptMove(r.requester, r.channel), Reply(notice, false)] + CleanUp(r)
    case Reject(actor) =>
      if actor != r.target then [Reply(NotAuthorizedToReject, true)]
      else [Reply(RequestRejected(r.requester), false)] + CleanUp(r)
    case Timeout =>
      if r.prompt.Some? then [ExpireMessage(r.prompt.value)] else []
  }

  /** What the view does on a sequence of events, in order. */
  function Run(r: Request, events: seq<Event>): (effects: seq<Effect>) {
    if |events| == 0 then [] else Handle(r, events[0]) + Run(r, events[1..])
  }

  /** The number of Accept clicks by the target in a sequence of events. */
  function CountTargetAccepts(target: nat, events: seq<Event>): (n: nat) {
    if |events| == 0 then 0
    else (if events[0].Accept? && events[0].actor == target then 1 else 0) + CountTargetAccepts(target, events[1..])
  }

  lemma {:induction false} CountMovesAppend(a: seq<Effect>, b: seq<Effect>)
    ensures CountMoves(a + b) == CountMoves(a) + CountMoves(b)
    decreases |a|
  {
    if |a| > 0 {
      assert (a + b)[0] == a[0];
      assert (a + b)[1..] == a[1..] + b;
      CountMovesAppend(a[1..], b);
    } else {
      assert a + b == b;
    }
  }

  /** One event attempts a move exactly when it is the target's Accept. */
  lemma HandleMoves(r: Request, e: Event)
    ensures CountMoves(Handle(r, e)) == if e.Accept? && e.actor == r.target then 1 else 0
  {
    var clean := CleanUp(r);
    assert CountMoves(clean) == 0 by {
      if r.prompt.Some? {
        assert clean[1..] == [];
      }
    }
    if e.Accept? && e.actor == r.target {
      var notice := if e.moveSucceeds then Moved(r.requester, r.channel) else MoveError;
      var head := [AttemptMove(r.requester, r.channel), Reply(notice, false)];
      assert head[1..][1..] == [];
      CountMovesAppend(head, clean);
    } else if e.Reject? && e.actor == r.target {
      var head := [Reply(RequestRejected(r.requester), false)];
      assert head[1..] == [];
      CountMovesAppend(head, clean);
    } else if e.Timeout? && r.prompt.Some? {
      assert Handle(r, e)[1..] == [];
    }
  }

  /**
   * Whatever clicks and timeouts arrive, only the requester is ever moved, only
   * into the channel captured when the request was made, and no message but
   * the prompt is deleted or edited (none at all when no prompt was set).
   */
  lemma {:induction false} RunWellAddressed(r: Request, events: seq<Event>)
    ensures WellAddressed(r, Run(r, events))
    decreases |events|
  {
    if |events| > 0 {
      var head, tail := Handle(r, events[0]), Run(r, events[1..]);
      RunWellAddressed(r, events[1..]);
      forall i | 0 <= i < |head + tail|
        ensures (head + tail)[i] == (if i < |head| then head[i] else tail[i - |head|])
      {
      }
    }
  }

  /**
   * Each Accept click by the target attempts the move again, and nothing else
   * moves anyone: the view gives no at-most-once guarantee.
   */
  lemma {:induction false} MovesMatchTargetAccepts(r: Request, events: seq<Event>)
    ensures CountMoves(Run(r, events)) == CountTargetAccepts(r.target, events)
    decreases |events|
  {
    if |events| > 0 {
      MovesMatchTargetAccepts(r, events[1..]);
      HandleMoves(r, events[0]);
      CountMovesAppend(Handle(r, events[0]), Run(r, events[1..]));
    }
  }

  /**
   * A timeout after the target's decision still edits the prompt the decision
   * deleted, and a second Accept moves the requester a second time.
   */
  lemma DecisionsAreNotFinal(r: Request, m: nat)
    requires r.prompt == Some(m)
    ensures Run(r, [Accept(r.target, true), Timeout]) ==
      [AttemptMove(r.requester, r.channel), Reply(Moved(r.requester, r.channel), false), DeleteMessage(m), ExpireMessage(m)]
    ensures CountMoves(Run(r, [Accept(r.target, true), Accept(r.target, true)])) == 2
  {
    var accept := Accept(r.target, true);
    assert [accept, Timeout][1..] == [Timeout];
    assert Run(r, [Timeout]) == Handle(r, Timeout) + Run(r, []);
    MovesMatchTargetAccepts(r, [accept, accept]);
    assert [accept, accept][1..] == [accept];
    assert [accept][1..] == [];
    assert CountTargetAccepts(r.target, [accept]) == 1;
  }

  /** The `discord.ui.View` subclass behind one prompt. */
  class DragmeButtons {
    const targetUser: nat
    const interactionUser: nat
    const targetVoiceChannel: nat
    /** Seconds the view waits for a click before `OnTimeout` runs. */
    const timeout: nat
    var requestMessage: Option<nat>

    constructor (targetUser: nat, interactionUser: nat, targetVoiceChannel: nat)
      ensures this.targetUser == targetUser && this.interactionUser == interactionUser
      ensures this.targetVoiceChannel == targetVoiceChannel && requestMessage == None
      ensures timeout == TimeoutSeconds
    {
      timeout := TimeoutSeconds;
      this.targetUser := targetUser;
      this.interactionUser := interactionUser;
      this.targetVoiceChannel := targetVoiceChannel;
      requestMessage := None;
    }

    function Snapshot(): Request
      reads this
    {
      Request(targetUser, interactionUser, targetVoiceChannel, requestMessage)
    }

    /** The Accept button: only the target may accept; a failed move is reported, not raised. */
    method AcceptButton(actor: nat, moveSucceeds: bool) returns (effects: seq<Effect>)
      ensures effects == Handle(Snapshot(), Accept(actor, moveSucceeds))
    {
      if actor != targetUser {
        return [Reply(NotAuthorizedToAccept, true)];
      }
      effects := [AttemptMove(interactionUser, targetVoiceChannel)];
      if moveSucceeds {
        effects := effects + [Reply(Moved(interactionUser, targetVoiceChannel), false)];
      } else {
        effects := effects + [Reply(MoveError, false)];
      }
      if requestMessage.Some? {
        effects := effects + [DeleteMessage(requestMessage.value)];
      }
    }

    /** The Reject button: only the target may reject; nobody is moved. */
    method RejectButton(actor: nat) returns (effects: seq<Effect>)
      ensures effects == Handle(Snapshot(), Reject(actor))
    {
      if actor != targetUser {
        return [Reply(NotAuthorizedToReject, true)];
      }
      effects := [Reply(RequestRejected(interactionUser), false)];
      if requestMessage.Some? {
        effects := effects + [DeleteMessage(requestMessage.value)];
      }
    }

    /** `on_timeout`: the prompt, if set, is marked as timed out and loses its buttons. */
    method OnTimeout() returns (effects: seq<Effect>)
      ensures effects == Handle(Snapshot(), Timeout)
    {
      effects := [];
      if requestMessage.Some? {
        effects := [ExpireMessage(requestMessage.value)];
      }
    }
  }

  /**
   * `/dragmee`: refuses privately with the first failed check, or acknowledges
   * privately, posts the prompt (`prompt` is the id the platform gives it) and
   * returns its view, whose request message is then that prompt.
   */
  method DragmeCommand(registry: Registry.RequestChannels, inv: Invocation, prompt: nat)
    returns (decision: Decision, effects: seq<Effect>, view: DragmeButtons?)
    ensures decision == CheckRequest(registry.channels, inv)
    ensures decision.Refused? ==> view == null && effects == [Reply(CheckFailed(decision.reason), true)]
    ensures decision.Approved? ==>
      && view != null && fresh(view)
      && view.Snapshot() == Request(inv.target, inv.requester, decision.targetChannel, Some(prompt))
      && effects == [Reply(RequestSent, true), PostPrompt(prompt, inv.target, inv.requester)]
  {
    decision := CheckRequest(registry.channels, inv);
    if decision.Refused? {
      return decision, [Reply(CheckFailed(decision.reason), true)], null;
    }
    effects := [Reply(RequestSent, true)];
    view := new DragmeButtons(inv.target, inv.requester, decision.targetChannel);
    effects := effects + [PostPrompt(prompt, inv.target, inv.requester)];
    view.requestMessage := Some(prompt);
  }

  /**
   * A request made from the registered intake channel by a user in one voice
   * channel for a user in another is approved; when the target accepts and the
   * move works, the requester is moved into the target's channel, the success
   * is announced and the prompt deleted.
   */
  lemma AcceptedRequestMovesRequester(channels: map<string, string>, inv: Invocation, prompt: nat)
    requires inv.channelId >= 0 && Registry.GuildKey(inv.guildId) in channels
    requires channels[Registry.GuildKey(inv.guildId)] == Decimal.NatToString(inv.channelId)
    requires BotCanMove(inv) && inv.requesterVoice.Some? && inv.targetVoice.Some?
    requires inv.requesterVoice != inv.targetVoice
    ensures CheckRequest(channels, inv) == Approved(inv.targetVoice.value)
    ensures var r := Request(inv.target, inv.requester, inv.targetVoice.value, Some(prompt));
      Handle(r, Accept(inv.target, true)) ==
        [AttemptMove(inv.requester, inv.targetVoice.value), Reply(Moved(inv.requester, inv.targetVoice.value), false), DeleteMessage(prompt)]
  {
    Decimal.ParseIntOfNatToString(inv.channelId);
  }

  /**
   * The same request when the target has left the channel by the time they
   * accept: the move fails, an error is announced, and the prompt is still deleted.
   */
  lemma FailedMoveStillClosesPrompt(r: Request, prompt: nat)
    requires r.prompt == Some(prompt)
    ensures Handle(r, Accept(r.target, false)) ==
      [AttemptMove(r.requester, r.channel), Reply(MoveError, false), DeleteMessage(prompt)]
  {
  }

  /** The target's Reject announces the rejection publicly and deletes the prompt. */
  lemma RejectClosesPrompt(r: Request, prompt: nat)
    requires r.prompt == Some(prompt)
    ensures Handle(r, Reject(r.target)) == [Reply(RequestRejected(r.requester), false), DeleteMessage(prompt)]
  {
  }

  /** Whichever way the target decides, the last thing done is deleting the prompt. */
  lemma DecisionClosesPrompt(r: Request, e: Event)
    requires !e.Timeout? && e.actor == r.target && r.prompt.Some?
    ensures var effects := Handle(r, e);
      |effects| > 0 && effects[|effects| - 1] == DeleteMessage(r.prompt.value)
  {
  }
}
