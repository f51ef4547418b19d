/** The notification action: one push message to every subscriber of the room
    except the sender. The push service is a parameter: `push(endpoint, payload)`
    says whether the delivery succeeded. */
module Actions {
  import opened Schema
  import Notifications

  /** The JSON object the action sends, kept as a record. */
  datatype Payload = Payload(title: string, body: string, url: string)

  /** One delivery attempt: to whom, what, and whether it succeeded. */
  datatype Attempt = Attempt(sessionId: string, endpoint: string, payload: Payload, delivered: bool)

  const BodyLimit: nat := 100

  /** An environment variable counts as set when it is present and non-empty. */
  predicate IsSet(key: Option<string>): (present: bool)
    ensures key.None? ==> !present
    ensures key == Some("") ==> !present
  {
    key.Some? && key.value != ""
  }

  /** Both keys are set and the push library accepts them: `accepts(public,
      private)` says whether registering them as VAPID details succeeds. */
  predicate KeysUsable(publicKey: Option<string>, privateKey: Option<string>, accepts: (string, string) -> bool) {
    IsSet(publicKey) && IsSet(privateKey) && accepts(publicKey.value, privateKey.value)
  }

  /** The payload built once per action from the scheduled arguments. */
  function BuildPayload(args: NotificationArgs): (p: Payload)
    ensures p.title == args.senderName + " @ " + args.roomName
    ensures p.url == "/room/" + args.roomCode
    ensures |p.body| <= BodyLimit && p.body <= args.content
    ensures |p.body| == BodyLimit || p.body == args.content
  {
    var end := if |args.content| < BodyLimit then |args.content| else BodyLimit;
    Payload(args.senderName + " @ " + args.roomName, args.content[..end], "/room/" + args.roomCode)
  }

  /** The subscriptions that get a notification: every one whose session is
      not the excluded one, in the order given. */
  function Recipients(subs: seq<Subscription>, exclude: string): (r: seq<Subscription>)
    ensures |r| <= |subs|
  {
    if subs == [] then []
    else
      var last := subs[|subs| - 1];
      Recipients(subs[..|subs| - 1], exclude) + (if last.sessionId != exclude then [last] else [])
  }

  /** Exactly the subscriptions of other sessions are recipients. */
  lemma {:induction false} RecipientsMembers(subs: seq<Subscription>, exclude: string)
    ensures forall s :: s in Recipients(subs, exclude) <==> s in subs && s.sessionId != exclude
    ensures |Recipients(subs, exclude)| <= |subs|
  {
    if subs != [] {
      var init, last := subs[..|subs| - 1], subs[|subs| - 1];
      assert subs == init + [last];
      RecipientsMembers(init, exclude);
    }
  }

  /** Appending a subscription extends the recipients by it exactly when its
      session is not the excluded one: recipients keep the order given. */
  lemma RecipientsAppend(subs: seq<Subscription>, s: Subscription, exclude: string)
    ensures Recipients(subs + [s], exclude) ==
      Recipients(subs, exclude) + (if s.sessionId != exclude then [s] else [])
  {
    assert (subs + [s])[..|subs|] == subs;
  }

  lemma RecipientsStep(subs: seq<Subscription>, i: nat, exclude: string)
    requires i < |subs|
    ensures Recipients(subs[..i + 1], exclude) ==
      Recipients(subs[..i], exclude) + (if subs[i].sessionId != exclude then [subs[i]] else [])
  {
    assert subs[..i + 1] == subs[..i] + [subs[i]];
    RecipientsAppend(subs[..i], subs[i], exclude);
  }

  /** The attempts made when `recipients` are tried in order with `payload`. */
  function Deliveries(recipients: seq<Subscription>, payload: Payload, push: (string, Payload) -> bool): (r: seq<Attempt>)
    ensures |r| == |recipients|
  {
    if recipients == [] then []
    else
      var last := recipients[|recipients| - 1];
      Deliveries(recipients[..|recipients| - 1], payload, push)
        + [Attempt(last.sessionId, last.subscription, payload, push(last.subscription, payload))]
  }

  /** The k-th attempt goes to the k-th recipient, with the payload, and records
      what the push service answered. */
  lemma {:induction false} DeliveriesAt(recipients: seq<Subscription>, payload: Payload, push: (string, Payload) -> bool)
    ensures |Deliveries(recipients, payload, push)| == |recipients|
    ensures forall k :: 0 <= k < |recipients| ==>
      Deliveries(recipients, payload, push)[k] ==
        Attempt(recipients[k].sessionId, recipients[k].subscription, payload, push(recipients[k].subscription, payload))
  {
    if recipients != [] {
      var init := recipients[..|recipients| - 1];
      DeliveriesAt(init, payload, push);
      assert forall k :: 0 <= k < |init| ==> recipients[k] == init[k];
    }
  }

  /** The action: reads the room's subscriptions, gives up when either VAPID
      key is unset, registers the keys (which raises when the push library
      rejects them, ending the action), and otherwise tries each recipient in
      turn with the same payload, carrying on after a failed delivery. Returns
      the attempts made and whether the action ended by that exception. */
  method SendNotification(
    subscriptionTable: seq<Subscription>,
    args: NotificationArgs,
    publicKey: Option<string>,
    privateKey: Option<string>,
    accepts: (string, string) -> bool,
    push: (string, Payload) -> bool)
    returns (attempts: seq<Attempt>, keysRejected: bool)
    ensures keysRejected <==> IsSet(publicKey) && IsSet(privateKey) && !accepts(publicKey.value, privateKey.value)
    ensures !KeysUsable(publicKey, privateKey, accepts) ==> attempts == []
    ensures KeysUsable(publicKey, privateKey, accepts) ==>
      var recipients := Recipients(Notifications.GetSubscriptions(subscriptionTable, args.roomId), args.excludeSessionId);
      && |attempts| == |recipients|
      && forall i :: 0 <= i < |attempts| ==>
        attempts[i] == Attempt(recipients[i].sessionId, recipients[i].subscription, BuildPayload(args),
                               push(recipients[i].subscription, BuildPayload(args)))
    ensures forall a :: a in attempts ==> a.sessionId != args.excludeSessionId
    ensures KeysUsable(publicKey, privateKey, accepts) ==>
      forall s :: s in subscriptionTable && s.roomId == args.roomId && s.sessionId != args.excludeSessionId ==>
        exists a :: a in attempts && a.sessionId == s.sessionId && a.endpoint == s.subscription
  {
    var subscriptions := Notifications.GetSubscriptions(subscriptionTable, args.roomId);
    if !IsSet(publicKey) || !IsSet(privateKey) {
      return [], false;
    }
    if !accepts(publicKey.value, privateKey.value) {
      return [], true;
    }
    var payload := BuildPayload(args);
    attempts := TryRecipients(subscriptions, args.excludeSessionId, payload, push);
    keysRejected := false;
    DeliveriesAt(Recipients(subscriptions, args.excludeSessionId), payload, push);
    DeliveriesReachOthersOnly(subscriptions, args.excludeSessionId, payload, push);
  }

  /** The delivery loop: skips the excluded session and pushes `payload` to
      every other subscription in turn, going on after a failed push. */
  method TryRecipients(subscriptions: seq<Subscription>, exclude: string, payload: Payload, push: (string, Payload) -> bool)
    returns (attempts: seq<Attempt>)
    ensures attempts == Deliveries(Recipients(subscriptions, exclude), payload, push)
  {
    attempts := [];
    for i := 0 to |subscriptions|
      invariant attempts == Deliveries(Recipients(subscriptions[..i], exclude), payload, push)
    {
      var sub := subscriptions[i];
      RecipientsStep(subscriptions, i, exclude);
      if sub.sessionId == exclude {
        assert Recipients(subscriptions[..i + 1], exclude) == Recipients(subscriptions[..i], exclude);
        continue;
      }
      var delivered := push(sub.subscription, payload);
      attempts := attempts + [Attempt(sub.sessionId, sub.subscription, payload, delivered)];
      DeliveriesStep(Recipients(subscriptions[..i], exclude), sub, payload, push);
      assert Recipients(subscriptions[..i + 1], exclude) == Recipients(subscriptions[..i], exclude) + [sub];
    }
    assert subscriptions[..|subscriptions|] == subscriptions;
  }

  /** Trying the recipients reaches every subscription of another session and
      never the excluded one. */
  lemma DeliveriesReachOthersOnly(subs: seq<Subscription>, exclude: string, payload: Payload, push: (string, Payload) -> bool)
    ensures var attempts := Deliveries(Recipients(subs, exclude), payload, push);
      && (forall a :: a in attempts ==> a.sessionId != exclude)
      && forall s :: s in subs && s.sessionId != exclude ==>
           exists a :: a in attempts && a.sessionId == s.sessionId && a.endpoint == s.subscription
  {
    var recipients := Recipients(subs, exclude);
    var attempts := Deliveries(recipients, payload, push);
    DeliveriesAt(recipients, payload, push);
    RecipientsMembers(subs, exclude);
    forall a | a in attempts ensures a.sessionId != exclude {
      var k :| 0 <= k < |attempts| && attempts[k] == a;
      assert recipients[k] in recipients;
    }
    forall s | s in subs && s.sessionId != exclude
      ensures exists a :: a in attempts && a.sessionId == s.sessionId && a.endpoint == s.subscription
    {
      var k :| 0 <= k < |recipients| && recipients[k] == s;
      assert attempts[k] in attempts;
    }
  }

  lemma DeliveriesStep(recipients: seq<Subscription>, sub: Subscription, payload: Payload, push: (string, Payload) -> bool)
    ensures Deliveries(recipients + [sub], payload, push) ==
      Deliveries(recipients, payload, push) + [Attempt(sub.sessionId, sub.subscription, payload, push(sub.subscription, payload))]
  {
    assert (recipients + [sub])[..|recipients|] == recipients;
  }
}
