/**
  The `/webhook` route: the GET verification handshake and the POST walk
  over the page events, which answers every non-echo text message with a
  text send and, when the answer carries one, an image send.
 */
module Webhook {
  import opened Wrappers
  import opened PyStr
  import opened Assistant
  import opened ReplyParser

  /** An HTTP answer; `ServerError` is what the framework sends for a view that returns nothing. */
  datatype Response = Response(body: string, status: nat) | ServerError

  const Accepted: Response := Response("ok", 200)
  const Rejected: Response := Response("Verification Failed", 403)

  // ---------------------------------------------------------------------
  // GET: verification handshake
  // ---------------------------------------------------------------------

  /**
    The handshake as written: the supplied `hub.verify_token` is compared
    with the configured token, both possibly absent, and on a match the
    `hub.challenge` is echoed (absent, the view returns nothing).
   */
  function HandleGet(configured: Option<string>, supplied: Option<string>, challenge: Option<string>): (r: Response)
    ensures supplied != configured ==> r == Rejected
  {
    if supplied == configured then
      (if challenge.Some? then Response(challenge.value, 200) else ServerError)
    else Rejected
  }

  /**
    The handshake succeeds exactly when the tokens compare equal and a
    challenge was sent, and then answers with that challenge.
   */
  lemma GetAcceptsIffTokensMatch(configured: Option<string>, supplied: Option<string>, challenge: Option<string>)
    ensures var r := HandleGet(configured, supplied, challenge);
      && (r.Response? && r.status == 200 <==> supplied == configured && challenge.Some?)
      && (r.Response? && r.status == 200 ==> r.body == challenge.value)
      && (r == Rejected <==> supplied != configured)
  {
  }

  /**
    As written, a server started without a verify token accepts a handshake
    that carries no token either.
   */
  lemma UnsetTokenAcceptsTokenlessHandshake(challenge: string)
    ensures HandleGet(None, None, Some(challenge)) == Response(challenge, 200)
  {
  }

  /** The handshake as intended: only a configured, non-empty token can be matched. */
  function HandleGetStrict(configured: Option<string>, supplied: Option<string>, challenge: Option<string>): (r: Response)
  {
    if configured.Some? && configured.value != [] && supplied == configured then
      (if challenge.Some? then Response(challenge.value, 200) else ServerError)
    else Rejected
  }

  /**
    The intended handshake echoes the challenge only for a request that
    presents the configured, non-empty token, and otherwise agrees with
    the handshake as written.
   */
  lemma StrictNeedsConfiguredToken(configured: Option<string>, supplied: Option<string>, challenge: Option<string>)
    ensures var r := HandleGetStrict(configured, supplied, challenge);
      && (r.Response? && r.status == 200 <==>
            configured.Some? && configured.value != [] && supplied == configured && challenge.Some?)
      && (configured.Some? && configured.value != [] ==> r == HandleGet(configured, supplied, challenge))
  {
  }

  // ---------------------------------------------------------------------
  // POST: event dispatch
  // ---------------------------------------------------------------------

  /** `event['message']`: its `text`, if the key is there, and the truth of `is_echo`. */
  datatype Message = Message(text: Option<string>, isEcho: bool)

  /** One messaging event: `event['sender']['id']` when both keys exist, and `event['message']`. */
  datatype Event = Event(senderId: Option<string>, message: Option<Message>)

  /** One entry: `entry.get('messaging', [])`. */
  datatype Entry = Entry(messaging: seq<Event>)

  /** The JSON body: `data.get('object')` and `data['entry']`, either possibly missing. */
  datatype Payload = Payload(objectKind: Option<string>, entry: Option<seq<Entry>>)

  /** A send to the Graph API, in the order it is attempted. */
  datatype Action = SendText(recipient: string, text: string) | SendImage(recipient: string, url: string)

  /**
    The world outside the handler: the `ask_groq` backend and whether the
    text POST of `send_fb_message` raises for a given recipient and text
    (it has no handler of its own, so that aborts the walk).
   */
  datatype Ports = Ports(backend: Backend, textPostRaises: (string, string) -> bool)

  /** The sends an event caused and whether an exception ended the walk there. */
  datatype Step = Step(actions: seq<Action>, aborted: bool)

  /** `send_fb_image`: nothing for an empty link. */
  function ImageSend(recipient: string, url: string): seq<Action>
  {
    if url == [] then [] else [SendImage(recipient, url)]
  }

  /** The event is a text message, with a sender, that is not an echo. */
  predicate Answered(ev: Event) {
    ev.message.Some? && ev.message.value.text.Some? && ev.senderId.Some? && !ev.message.value.isEcho
  }

  /** What the body of the inner loop does with one event. */
  function EventStep(p: Ports, ev: Event): Step
  {
    if ev.message.None? || ev.message.value.text.None? then Step([], false)
    else if ev.senderId.None? then Step([], true)
    else if ev.message.value.isEcho then Step([], false)
    else
      var senderId := ev.senderId.value;
      var reply := AskGroq(p.backend, ev.message.value.text.value);
      var sent := [SendText(senderId, reply.text)];
      if p.textPostRaises(senderId, reply.text) then Step(sent, true)
      else if reply.image.Some? && reply.image.value != [] then
        Step(sent + ImageSend(senderId, reply.image.value), false)
      else Step(sent, false)
  }

  /**
    An event causes sends exactly when it is answered: first the text of
    `ask_groq`'s reply to its sender, then, only when the reply has an
    image and the text POST did not raise, one image send to the same
    sender. Only a text message can raise.
   */
  lemma EventSends(p: Ports, ev: Event)
    ensures var s := EventStep(p, ev);
      && (s.actions != [] <==> Answered(ev))
      && |s.actions| <= 2
      && (s.aborted ==> ev.message.Some? && ev.message.value.text.Some? && |s.actions| <= 1)
    ensures Answered(ev) ==>
      var s := EventStep(p, ev);
      var reply := AskGroq(p.backend, ev.message.value.text.value);
      && s.actions[0] == SendText(ev.senderId.value, reply.text)
      && (|s.actions| == 2 <==> !s.aborted && reply.image.Some?)
      && (|s.actions| == 2 ==> s.actions[1] == SendImage(ev.senderId.value, reply.image.value))
  {
  }

  /** The walk over a flat sequence of events, stopping at the first exception. */
  function Run(p: Ports, events: seq<Event>): Step
    decreases |events|
  {
    if events == [] then Step([], false)
    else
      var before := Run(p, events[..|events| - 1]);
      if before.aborted then before
      else
        var s := EventStep(p, events[|events| - 1]);
        Step(before.actions + s.actions, s.aborted)
  }

  /** The events of all entries, entry by entry. */
  function Flatten(entries: seq<Entry>): seq<Event> {
    if entries == [] then []
    else Flatten(entries[..|entries| - 1]) + entries[|entries| - 1].messaging
  }

  /** The sends a POST body causes. */
  function PostActions(p: Ports, body: Option<Payload>): (acts: seq<Action>)
    ensures acts != [] ==> body.Some? && body.value.objectKind == Some("page") && body.value.entry.Some?
  {
    if body.None? then []
    else
      var data := body.value;
      if data.objectKind != Some("page") || data.entry.None? then []
      else Run(p, Flatten(data.entry.value)).actions
  }

  /**
    The body of the inner loop of `webhook` for one event: the sends it
    attempts, and whether it raised (`event['sender']['id']` missing, or the
    text POST failing). This is the statement form that `HandleMessaging`
    runs; `EventStep` is its specification, which the lemmas about the walk use.
   */
  method HandleEvent(p: Ports, event: Event) returns (sent: seq<Action>, raised: bool)
    ensures Step(sent, raised) == EventStep(p, event)
  {
    sent, raised := [], false;
    if event.message.None? || event.message.value.text.None? {
      return;
    }
    if event.senderId.None? {
      raised := true;
      return;
    }
    var senderId := event.senderId.value;
    var userMsg := event.message.value.text.value;
    if event.message.value.isEcho {
      return;
    }
    var reply := AskGroq(p.backend, userMsg);
    sent := [SendText(senderId, reply.text)];
    if p.textPostRaises(senderId, reply.text) {
      raised := true;
      return;
    }
    if reply.image.Some? && reply.image.value != [] {
      sent := sent + ImageSend(senderId, reply.image.value);
    }
  }

  /**
    The inner loop of `webhook` over one entry's events, continuing a walk
    that has sent `before` so far: it stops at the first event that raises.
   */
  method HandleMessaging(p: Ports, events: seq<Event>, ghost earlier: seq<Event>, before: seq<Action>)
    returns (actions: seq<Action>, raised: bool, ghost at: nat)
    requires Run(p, earlier) == Step(before, false)
    ensures raised ==> at < |events| && Run(p, earlier + events[..at + 1]) == Step(actions, true)
    ensures !raised ==> Run(p, earlier + events) == Step(actions, false)
  {
    actions, raised, at := before, false, 0;
    assert earlier + events[..0] == earlier;
    for j := 0 to |events|
      invariant Run(p, earlier + events[..j]) == Step(actions, false)
    {
      var sent, failed := HandleEvent(p, events[j]);
      WalkStep(p, earlier, events, j, actions, sent, failed);
      actions := actions + sent;
      if failed {
        raised, at := true, j;
        return;
      }
    }
    assert events[..|events|] == events;
  }

  /**
    The POST branch of `webhook`: every event of every entry in order; an
    exception anywhere ends the walk but the answer stays "ok".
   */
  method HandlePost(p: Ports, body: Option<Payload>) returns (actions: seq<Action>, response: Response)
    ensures response == Accepted
    ensures actions == PostActions(p, body)
  {
    actions := [];
    response := Accepted;
    if body.None? {
      return;
    }
    var data := body.value;
    if data.objectKind != Some("page") {
      return;
    }
    if data.entry.None? {
      return;
    }
    var entries := data.entry.value;
    for i := 0 to |entries|
      invariant Run(p, Flatten(entries[..i])) == Step(actions, false)
    {
      var raised;
      ghost var at;
      actions, raised, at := HandleMessaging(p, entries[i].messaging, Flatten(entries[..i]), actions);
      if raised {
        AbortEndsPost(p, entries, i, at);
        return;
      }
      NextEntry(entries, i);
    }
    assert entries[..|entries|] == entries;
  }

  // ---------------------------------------------------------------------
  // Lemmas
  // ---------------------------------------------------------------------

  /** One more event extends a walk that is still going by that event's step. */
  lemma RunSnoc(p: Ports, done: seq<Event>, ev: Event)
    requires !Run(p, done).aborted
    ensures Run(p, done + [ev]) == Step(Run(p, done).actions + EventStep(p, ev).actions, EventStep(p, ev).aborted)
  {
    assert (done + [ev])[..|done|] == done;
  }

  /** The walk over one more event of `events` goes on by that event's step. */
  lemma WalkStep(p: Ports, earlier: seq<Event>, events: seq<Event>, j: nat,
                 actions: seq<Action>, sent: seq<Action>, failed: bool)
    requires j < |events| && Run(p, earlier + events[..j]) == Step(actions, false)
    requires Step(sent, failed) == EventStep(p, events[j])
    ensures Run(p, earlier + events[..j + 1]) == Step(actions + sent, failed)
  {
    RunSnoc(p, earlier + events[..j], events[j]);
    PrefixSnoc(earlier, events, j);
  }

  /** Dropping the last element of `x + b` drops the last element of `b`. */
  lemma DropLast<T>(x: seq<T>, b: seq<T>)
    requires b != []
    ensures (x + b)[..|x + b| - 1] == x + b[..|b| - 1]
    ensures (x + b)[|x + b| - 1] == b[|b| - 1]
  {
  }

  lemma PrefixSnoc<T>(earlier: seq<T>, xs: seq<T>, j: nat)
    requires j < |xs|
    ensures earlier + xs[..j] + [xs[j]] == earlier + xs[..j + 1]
  {
    assert xs[..j + 1] == xs[..j] + [xs[j]];
  }

  lemma {:induction false} FlattenAppend(a: seq<Entry>, b: seq<Entry>)
    ensures Flatten(a + b) == Flatten(a) + Flatten(b)
    decreases |b|
  {
    if b != [] {
      DropLast(a, b);
      FlattenAppend(a, b[..|b| - 1]);
    } else {
      assert a + b == a;
    }
  }

  /** The flat event sequence, cut just after event `j` of entry `i`. */
  lemma FlattenAt(entries: seq<Entry>, i: nat, j: nat)
    requires i < |entries| && j < |entries[i].messaging|
    ensures var events := entries[i].messaging;
      Flatten(entries) == Flatten(entries[..i]) + events[..j + 1] + (events[j + 1..] + Flatten(entries[i + 1..]))
  {
    var events := entries[i].messaging;
    CutAt(entries, i + 1);
    FlattenAppend(entries[..i + 1], entries[i + 1..]);
    NextEntry(entries, i);
    CutAt(events, j + 1);
  }

  lemma CutAt<T>(xs: seq<T>, n: nat)
    requires n <= |xs|
    ensures xs == xs[..n] + xs[n..]
  {
  }

  /** An exception at event `j` of entry `i` fixes what the whole payload sends. */
  lemma AbortEndsPost(p: Ports, entries: seq<Entry>, i: nat, j: nat)
    requires i < |entries| && j < |entries[i].messaging|
    requires Run(p, Flatten(entries[..i]) + entries[i].messaging[..j + 1]).aborted
    ensures Run(p, Flatten(entries)) == Run(p, Flatten(entries[..i]) + entries[i].messaging[..j + 1])
  {
    var events := entries[i].messaging;
    FlattenAt(entries, i, j);
    AbortIsFinal(p, Flatten(entries[..i]) + events[..j + 1], events[j + 1..] + Flatten(entries[i + 1..]));
  }

  /** The events of the first `i + 1` entries are those of the first `i`, then entry `i`'s. */
  lemma NextEntry(entries: seq<Entry>, i: nat)
    requires i < |entries|
    ensures Flatten(entries[..i + 1]) == Flatten(entries[..i]) + entries[i].messaging
  {
    assert entries[..i + 1][..i] == entries[..i];
  }

  /** Once an exception ended the walk, later events change nothing. */
  lemma {:induction false} AbortIsFinal(p: Ports, a: seq<Event>, b: seq<Event>)
    requires Run(p, a).aborted
    ensures Run(p, a + b) == Run(p, a)
    decreases |b|
  {
    if b != [] {
      DropLast(a, b);
      AbortIsFinal(p, a, b[..|b| - 1]);
    } else {
      assert a + b == a;
    }
  }

  /** Walks that agree so far agree after the same further events. */
  lemma {:induction false} RunCongruent(p: Ports, x: seq<Event>, y: seq<Event>, b: seq<Event>)
    requires Run(p, x) == Run(p, y)
    ensures Run(p, x + b) == Run(p, y + b)
    decreases |b|
  {
    if b != [] {
      DropLast(x, b);
      DropLast(y, b);
      RunCongruent(p, x, y, b[..|b| - 1]);
    } else {
      assert x + b == x && y + b == y;
    }
  }

  /** An event that is not a text message, or an echo with a sender. */
  predicate Inert(ev: Event) {
    || ev.message.None?
    || ev.message.value.text.None?
    || (ev.senderId.Some? && ev.message.value.isEcho)
  }

  /**
    Inert events, echoes among them, can be added anywhere in the payload
    without changing what is sent.
   */
  lemma InertEventIgnored(p: Ports, a: seq<Event>, ev: Event, b: seq<Event>)
    requires Inert(ev)
    ensures Run(p, a + [ev] + b) == Run(p, a + b)
  {
    assert (a + [ev])[..|a|] == a;
    assert Run(p, a + [ev]) == Run(p, a);
    RunCongruent(p, a + [ev], a, b);
  }

  /** Every image send directly follows a text send to the same recipient. */
  predicate ImagesFollowTexts(acts: seq<Action>) {
    forall k :: 0 <= k < |acts| && acts[k].SendImage? ==>
      k > 0 && acts[k - 1].SendText? && acts[k - 1].recipient == acts[k].recipient
  }

  lemma ImagesFollowTextsAppend(a: seq<Action>, b: seq<Action>)
    requires ImagesFollowTexts(a) && ImagesFollowTexts(b)
    requires b == [] || b[0].SendText?
    ensures ImagesFollowTexts(a + b)
  {
    forall k | 0 <= k < |a + b| && (a + b)[k].SendImage?
      ensures k > 0 && (a + b)[k - 1].SendText? && (a + b)[k - 1].recipient == (a + b)[k].recipient
    {
      if k >= |a| {
        assert (a + b)[k] == b[k - |a|];
        if k - |a| > 0 {
          assert (a + b)[k - 1] == b[k - 1 - |a|];
        }
      }
    }
  }

  /** Whatever the payload, an image is never sent without the text before it. */
  lemma {:induction false} RunImagesFollowTexts(p: Ports, events: seq<Event>)
    ensures ImagesFollowTexts(Run(p, events).actions)
    decreases |events|
  {
    if events != [] {
      var before := events[..|events| - 1];
      RunImagesFollowTexts(p, before);
      if !Run(p, before).aborted {
        var s := EventStep(p, events[|events| - 1]);
        EventSends(p, events[|events| - 1]);
        ImagesFollowTextsAppend(Run(p, before).actions, s.actions);
      }
    }
  }

  /** Every image send carries a non-empty, whitespace-free `http` link. */
  predicate ImageLinksWellFormed(acts: seq<Action>) {
    forall k :: 0 <= k < |acts| && acts[k].SendImage? ==>
      acts[k].url != [] && NoSpace(acts[k].url) && StartsWith(acts[k].url, UrlScheme)
  }

  /** The sends of one event attach only well-formed image links. */
  lemma StepImageLinks(p: Ports, ev: Event)
    ensures ImageLinksWellFormed(EventStep(p, ev).actions)
  {
    var s := EventStep(p, ev);
    EventSends(p, ev);
    if |s.actions| == 2 {
      var text := ev.message.value.text.value;
      ImageLinkShape(p.backend, text);
      PairLinks(s.actions, AskGroq(p.backend, text).image.value);
    } else {
      SingleTextLinks(s.actions);
    }
  }

  lemma PairLinks(acts: seq<Action>, url: string)
    requires |acts| == 2 && acts[0].SendText? && acts[1] == SendImage(acts[1].recipient, url)
    requires url != [] && NoSpace(url) && StartsWith(url, UrlScheme)
    ensures ImageLinksWellFormed(acts)
  {
  }

  lemma SingleTextLinks(acts: seq<Action>)
    requires |acts| <= 2 && (acts != [] ==> acts[0].SendText?) && |acts| != 2
    ensures ImageLinksWellFormed(acts)
  {
  }

  lemma ImageLinksAppend(a: seq<Action>, b: seq<Action>)
    requires ImageLinksWellFormed(a) && ImageLinksWellFormed(b)
    ensures ImageLinksWellFormed(a + b)
  {
    forall k | 0 <= k < |a + b| && (a + b)[k].SendImage?
      ensures (a + b)[k].url != [] && NoSpace((a + b)[k].url) && StartsWith((a + b)[k].url, UrlScheme)
    {
      if k >= |a| {
        assert (a + b)[k] == b[k - |a|];
      }
    }
  }

  /**
    `send_fb_image` is only ever reached with a non-empty link, and that link
    is a whitespace-free `http` token: every image send of a walk has one.
   */
  lemma {:induction false} RunImageLinks(p: Ports, events: seq<Event>)
    ensures ImageLinksWellFormed(Run(p, events).actions)
    decreases |events|
  {
    if events != [] {
      var before := events[..|events| - 1];
      RunImageLinks(p, before);
      if !Run(p, before).aborted {
        StepImageLinks(p, events[|events| - 1]);
        ImageLinksAppend(Run(p, before).actions, EventStep(p, events[|events| - 1]).actions);
      }
    }
  }

  /** The text sends among the actions, in order. */
  function TextSends(acts: seq<Action>): (ts: seq<Action>)
    ensures |ts| <= |acts|
    ensures forall k :: 0 <= k < |ts| ==> ts[k].SendText?
  {
    if acts == [] then []
    else TextSends(acts[..|acts| - 1]) + (if acts[|acts| - 1].SendText? then [acts[|acts| - 1]] else [])
  }

  lemma {:induction false} TextSendsAppend(a: seq<Action>, b: seq<Action>)
    ensures TextSends(a + b) == TextSends(a) + TextSends(b)
    decreases |b|
  {
    if b != [] {
      DropLast(a, b);
      TextSendsAppend(a, b[..|b| - 1]);
    } else {
      assert a + b == a;
    }
  }

  /** The answer each answered event should get, in event order. */
  function Answers(p: Ports, events: seq<Event>): seq<Action> {
    if events == [] then []
    else
      var ev := events[|events| - 1];
      Answers(p, events[..|events| - 1])
      + (if Answered(ev) then [SendText(ev.senderId.value, AskGroq(p.backend, ev.message.value.text.value).text)] else [])
  }

  /**
    A walk that no exception ended sends exactly one text per answered
    event, to its sender, with `ask_groq`'s text for its message, in
    event order.
   */
  lemma {:induction false} TextsAnswerEvents(p: Ports, events: seq<Event>)
    requires !Run(p, events).aborted
    ensures TextSends(Run(p, events).actions) == Answers(p, events)
    decreases |events|
  {
    if events != [] {
      var before := events[..|events| - 1];
      var ev := events[|events| - 1];
      TextsAnswerEvents(p, before);
      StepTexts(p, ev);
      TextSendsAppend(Run(p, before).actions, EventStep(p, ev).actions);
    }
  }

  /** The text sends of one event are its answer, if it is answered. */
  lemma StepTexts(p: Ports, ev: Event)
    ensures TextSends(EventStep(p, ev).actions)
      == if Answered(ev) then [SendText(ev.senderId.value, AskGroq(p.backend, ev.message.value.text.value).text)] else []
  {
    var s := EventStep(p, ev);
    EventSends(p, ev);
    if |s.actions| == 2 {
      assert s.actions == [s.actions[0]] + [s.actions[1]];
      TextSendsAppend([s.actions[0]], [s.actions[1]]);
      assert TextSends([s.actions[1]]) == [];
      assert TextSends([s.actions[0]]) == [s.actions[0]];
    } else if |s.actions| == 1 {
      assert TextSends(s.actions) == [s.actions[0]];
    }
  }
}
