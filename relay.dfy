/** The relay loop of bot.py: message classification (`is_private_chat`,
    `message_type`), the choice of outbound calls for one update
    (`handle_update`), the offset arithmetic of `tg_get_updates` and one
    iteration of `main`. Outbound calls are recorded, not performed: each
    is made through `tg_call` inside its own try block, so which calls are
    attempted never depends on how an earlier one ended. */
module Relay {
  import opened Wrappers
  import opened Updates
  import opened Retry
  import opened AntiFlood

  const LONG_POLL_TIMEOUT: int := 50
  const SLEEP_ON_ERROR: real := 2.0

  /** The keys `message_type` tries, in order. */
  const CONTENT_KINDS: seq<string> := ["text", "photo", "document", "voice", "video", "sticker"]

  predicate IsPrivateChat(m: Message)
  {
    m.chat.Some? && m.chat.value.kind == Some("private")
  }

  /** The first key of CONTENT_KINDS from position i on that the message
      has, or "other" when it has none of them. */
  function KindFrom(m: Message, i: nat): (r: string)
    requires i <= |CONTENT_KINDS|
    ensures forall j ::
              (i <= j < |CONTENT_KINDS| && HasKey(m, CONTENT_KINDS[j])
               && (forall l :: i <= l < j ==> !HasKey(m, CONTENT_KINDS[l])))
              ==> r == CONTENT_KINDS[j]
    ensures (forall l :: i <= l < |CONTENT_KINDS| ==> !HasKey(m, CONTENT_KINDS[l])) ==> r == "other"
    decreases |CONTENT_KINDS| - i
  {
    if i == |CONTENT_KINDS| then "other"
    else if HasKey(m, CONTENT_KINDS[i]) then CONTENT_KINDS[i]
    else KindFrom(m, i + 1)
  }

  function MessageType(m: Message): string
  {
    KindFrom(m, 0)
  }

  /** A text message is "text" whatever else it carries; a message with
      none of the six keys is "other". */
  lemma MessageTypeCases(m: Message)
    ensures HasKey(m, "text") ==> MessageType(m) == "text"
    ensures (forall k :: k in CONTENT_KINDS ==> !HasKey(m, k)) ==> MessageType(m) == "other"
  {
    if forall k :: k in CONTENT_KINDS ==> !HasKey(m, k) {
      assert forall l :: 0 <= l < |CONTENT_KINDS| ==> !HasKey(m, CONTENT_KINDS[l]);
    }
  }

  /** One outbound platform call, each made through `tg_call`. */
  datatype ApiCall =
    | SendWelcome(chatId: int)                           // send_welcome
    | SendText(chatId: int, text: string)                // send_text
    | Forward(toChat: string, fromChatId: int, messageId: int)  // forward_to_admin

  /** What handling one update came to: ignored (no message, or not a
      private chat), crashed (the sender id is missing, so `int(user_id)`
      fails before the limiter is consulted), or the limiter's verdict
      with the calls attempted after it. */
  datatype Dispatch = Ignored | Crashed | Handled(verdict: Verdict, calls: seq<ApiCall>)

  /** The calls `handle_update` attempts after the verdict. A missing chat
      or message id makes `int(None)` raise inside that call's own try
      block, so that call is not made and the others still are. */
  function Actions(m: Message, v: Verdict, admin: string): (r: seq<ApiCall>)
    ensures ChatId(m).None? ==> r == []
    ensures !v.allowed ==> |r| <= 1 && (r != [] ==> v.warn.Some? && r[0] == SendText(ChatId(m).value, v.warn.value))
    ensures v.allowed && ChatId(m).Some? ==> r != [] && r[0] == SendWelcome(ChatId(m).value)
    ensures v.allowed ==> |r| <= 2 && forall i :: 0 <= i < |r| ==> !r[i].SendText?
  {
    var chat := ChatId(m);
    if !v.allowed then
      if v.warn.Some? && chat.Some? then [SendText(chat.value, v.warn.value)] else []
    else
      (if chat.Some? then [SendWelcome(chat.value)] else [])
      + (if chat.Some? && m.messageId.Some? then [Forward(admin, chat.value, m.messageId.value)] else [])
  }

  /** A message reaches the administrator exactly when the limiter allowed
      it and both its chat id and message id are present; the forward does
      not depend on the welcome. */
  lemma ForwardIff(m: Message, v: Verdict, admin: string, to: string, from: int, id: int)
    ensures Forward(to, from, id) in Actions(m, v, admin)
      <==> v.allowed && to == admin && ChatId(m) == Some(from) && m.messageId == Some(id)
  {
  }

  /** A denied message gets at most the warning, sent back to its own
      chat, and is never forwarded. */
  lemma DeniedOnlyWarns(m: Message, v: Verdict, admin: string)
    requires !v.allowed && v.warn.Some? && ChatId(m).Some?
    ensures Actions(m, v, admin) == [SendText(ChatId(m).value, v.warn.value)]
  {
  }

  /** An allowed message is answered with the welcome first and then
      forwarded to the administrator. */
  lemma AllowedWelcomeThenForward(m: Message, v: Verdict, admin: string)
    requires v.allowed && ChatId(m).Some? && m.messageId.Some?
    ensures Actions(m, v, admin)
      == [SendWelcome(ChatId(m).value), Forward(admin, ChatId(m).value, m.messageId.value)]
  {
  }

  datatype Handling = Handling(dispatch: Dispatch, after: Tables)

  /** `handle_update(update)` with the clock reading its limiter check
      would take. */
  function Handle(enabled: bool, t: Tables, upd: Update, now: real, admin: string): (r: Handling)
    ensures r.dispatch == Ignored <==> upd.message.None? || !IsPrivateChat(upd.message.value)
    ensures r.dispatch.Handled? <==> !Passive(upd)
    ensures !r.dispatch.Handled? ==> r.after == t
  {
    if upd.message.None? || !IsPrivateChat(upd.message.value) then Handling(Ignored, t)
    else
      var m := upd.message.value;
      if SenderId(m).None? then Handling(Crashed, t)
      else
        var c := Step(enabled, t, SenderId(m).value, now);
        Handling(Handled(c.verdict, Actions(m, c.verdict, admin)), c.after)
  }

  /** An update is ignored exactly when it has no message, its message has
      no chat, or the chat's type is not "private". */
  lemma IgnoredIff(enabled: bool, t: Tables, upd: Update, now: real, admin: string)
    ensures Handle(enabled, t, upd, now, admin).dispatch == Ignored
      <==> upd.message.None? || upd.message.value.chat.None?
           || upd.message.value.chat.value.kind != Some("private")
  {
  }

  /** Updates that never reach the limiter: no message, a chat that is not
      private, or no sender id. */
  predicate Passive(upd: Update)
  {
    upd.message.None? || !IsPrivateChat(upd.message.value) || SenderId(upd.message.value).None?
  }

  /** A passive update makes no call and leaves the limiter as it was. */
  lemma PassiveNoCalls(enabled: bool, t: Tables, upd: Update, now: real, admin: string)
    requires Passive(upd)
    ensures var h := Handle(enabled, t, upd, now, admin);
      (h.dispatch == Ignored || h.dispatch == Crashed) && h.after == t
  {
  }

  /** A user in cooldown is answered with the "try later" text only,
      nothing is forwarded and the limiter records nothing. */
  lemma HandleDuringCooldown(t: Tables, upd: Update, now: real, admin: string)
    requires !Passive(upd) && ChatId(upd.message.value).Some?
    requires CoolingDown(t, SenderId(upd.message.value).value, now)
    ensures Handle(true, t, upd, now, admin)
      == Handling(Handled(Verdict(false, Some(TRY_LATER)), [SendText(ChatId(upd.message.value).value, TRY_LATER)]), t)
  {
    CooldownDenies(t, SenderId(upd.message.value).value, now);
  }

  /** With the limiter switched off every private message with a sender is
      welcomed and forwarded, and the tables stay as they were. */
  lemma HandleUnlimited(t: Tables, upd: Update, now: real, admin: string)
    requires !Passive(upd)
    requires ChatId(upd.message.value).Some? && upd.message.value.messageId.Some?
    ensures var m := upd.message.value;
      Handle(false, t, upd, now, admin)
      == Handling(Handled(Verdict(true, None),
                          [SendWelcome(ChatId(m).value), Forward(admin, ChatId(m).value, m.messageId.value)]), t)
  {
    DisabledAllows(t, SenderId(upd.message.value).value, now);
    AllowedWelcomeThenForward(upd.message.value, Verdict(true, None), admin);
  }

  datatype BatchResult = BatchResult(dispatches: seq<Dispatch>, after: Tables)

  /** The loop of `main` over the fetched updates, each update with its own
      clock reading: every update is handled, in order, whatever became of
      the ones before it. */
  function Batch(enabled: bool, t: Tables, upds: seq<Update>, clocks: seq<real>, admin: string): (r: BatchResult)
    requires |clocks| == |upds|
    ensures |r.dispatches| == |upds|
    decreases |upds|
  {
    if upds == [] then BatchResult([], t)
    else
      var n := |upds| - 1;
      var prev := Batch(enabled, t, upds[..n], clocks[..n], admin);
      var h := Handle(enabled, prev.after, upds[n], clocks[n], admin);
      BatchResult(prev.dispatches + [h.dispatch], h.after)
  }

  function Without<T>(s: seq<T>, k: nat): seq<T>
    requires k < |s|
  {
    s[..k] + s[k + 1..]
  }

  lemma WithoutSnoc<T>(s: seq<T>, k: nat)
    requires k < |s| - 1
    ensures var w := Without(s, k);
      |w| == |s| - 1 && w[..|w| - 1] == Without(s[..|s| - 1], k) && w[|w| - 1] == s[|s| - 1]
  {
  }

  /** Per-update isolation: a passive update in a batch, such as one
      whose handling raises, changes nothing for the others. They are
      handled exactly as they would be if it were not in the batch. */
  lemma {:induction false} PassiveIsTransparent(enabled: bool, t: Tables, upds: seq<Update>, clocks: seq<real>, admin: string, k: nat)
    requires |clocks| == |upds| && k < |upds| && Passive(upds[k])
    ensures Transparent(enabled, t, upds, clocks, admin, k)
    decreases |upds|
  {
    var n := |upds| - 1;
    if k == n {
      PassiveLast(enabled, t, upds, clocks, admin);
    } else {
      PassiveIsTransparent(enabled, t, upds[..n], clocks[..n], admin, k);
      TransparentSnoc(enabled, t, upds, clocks, admin, k);
    }
  }

  /** Leaving out update k yields the same final state and the same
      dispatches for every other update. */
  predicate Transparent(enabled: bool, t: Tables, upds: seq<Update>, clocks: seq<real>, admin: string, k: nat)
    requires |clocks| == |upds| && k < |upds|
  {
    var full := Batch(enabled, t, upds, clocks, admin);
    var rest := Batch(enabled, t, Without(upds, k), Without(clocks, k), admin);
    rest.after == full.after && rest.dispatches == Without(full.dispatches, k)
  }

  /** Transparency of an earlier update survives appending one more. */
  lemma TransparentSnoc(enabled: bool, t: Tables, upds: seq<Update>, clocks: seq<real>, admin: string, k: nat)
    requires |clocks| == |upds| && k < |upds| - 1
    requires Transparent(enabled, t, upds[..|upds| - 1], clocks[..|upds| - 1], admin, k)
    ensures Transparent(enabled, t, upds, clocks, admin, k)
  {
    var w, wc := Without(upds, k), Without(clocks, k);
    WithoutSnoc(upds, k);
    WithoutSnoc(clocks, k);
    SameTail(enabled, t, upds, clocks, w, wc, admin);
    var full := Batch(enabled, t, upds, clocks, admin);
    var rest := Batch(enabled, t, w, wc, admin);
    WithoutSnoc(full.dispatches, k);
    SnocEq(rest.dispatches, Without(full.dispatches, k));
  }

  lemma SnocEq<T>(a: seq<T>, b: seq<T>)
    requires |a| == |b| > 0 && a[..|a| - 1] == b[..|b| - 1] && a[|a| - 1] == b[|b| - 1]
    ensures a == b
  {
    assert a == a[..|a| - 1] + [a[|a| - 1]];
    assert b == b[..|b| - 1] + [b[|b| - 1]];
  }

  /** Dropping a passive last update changes nothing. */
  lemma PassiveLast(enabled: bool, t: Tables, upds: seq<Update>, clocks: seq<real>, admin: string)
    requires |clocks| == |upds| > 0 && Passive(upds[|upds| - 1])
    ensures Transparent(enabled, t, upds, clocks, admin, |upds| - 1)
  {
    var n := |upds| - 1;
    assert Without(upds, n) == upds[..n];
    assert Without(clocks, n) == clocks[..n];
    var prev := Batch(enabled, t, upds[..n], clocks[..n], admin);
    BatchSnoc(enabled, t, upds, clocks, admin);
    PassiveNoCalls(enabled, prev.after, upds[n], clocks[n], admin);
  }

  /** Two batches that reach the same state and end with the same update
      and clock reading handle that last update the same way. */
  lemma SameTail(enabled: bool, t: Tables, a: seq<Update>, ac: seq<real>, b: seq<Update>, bc: seq<real>, admin: string)
    requires |ac| == |a| > 0 && |bc| == |b| > 0
    requires a[|a| - 1] == b[|b| - 1] && ac[|ac| - 1] == bc[|bc| - 1]
    requires Batch(enabled, t, a[..|a| - 1], ac[..|a| - 1], admin).after
          == Batch(enabled, t, b[..|b| - 1], bc[..|b| - 1], admin).after
    ensures var x := Batch(enabled, t, a, ac, admin);
      var y := Batch(enabled, t, b, bc, admin);
      x.after == y.after && x.dispatches[|a| - 1] == y.dispatches[|b| - 1]
      && x.dispatches[..|a| - 1] == Batch(enabled, t, a[..|a| - 1], ac[..|a| - 1], admin).dispatches
      && y.dispatches[..|b| - 1] == Batch(enabled, t, b[..|b| - 1], bc[..|b| - 1], admin).dispatches
  {
    BatchSnoc(enabled, t, a, ac, admin);
    BatchSnoc(enabled, t, b, bc, admin);
  }

  /** One unfolding of Batch. */
  lemma BatchSnoc(enabled: bool, t: Tables, upds: seq<Update>, clocks: seq<real>, admin: string)
    requires |clocks| == |upds| > 0
    ensures var n := |upds| - 1;
      var prev := Batch(enabled, t, upds[..n], clocks[..n], admin);
      var h := Handle(enabled, prev.after, upds[n], clocks[n], admin);
      Batch(enabled, t, upds, clocks, admin) == BatchResult(prev.dispatches + [h.dispatch], h.after)
  {
  }

  /** Values of the JSON payload fields used here. */
  datatype Json = Num(n: int) | Strings(items: seq<string>)

  /** The getUpdates payload: long-poll timeout, message updates only, and
      the offset only when there is one. */
  function GetUpdatesPayload(offset: Option<int>): (p: map<string, Json>)
    ensures "timeout" in p && p["timeout"] == Num(LONG_POLL_TIMEOUT)
    ensures "allowed_updates" in p && p["allowed_updates"] == Strings(["message"])
    ensures ("offset" in p <==> offset.Some?) && (offset.Some? ==> p["offset"] == Num(offset.value))
    ensures p.Keys <= {"timeout", "allowed_updates", "offset"}
  {
    var base := map["timeout" := Num(LONG_POLL_TIMEOUT), "allowed_updates" := Strings(["message"])];
    if offset.Some? then base["offset" := Num(offset.value)] else base
  }

  datatype FetchError = CallFailed(failure: Failure) | MissingUpdateId

  datatype Fetched = Fetched(updates: seq<Update>, newOffset: Option<int>)

  /** `new_offset`: one past the id of the LAST update of the batch, none
      for an empty batch; a last update without an id raises. */
  function NewOffset(result: seq<Update>): (r: Result<Option<int>, FetchError>)
    ensures r == Success(None) <==> result == []
    ensures r.Failure? ==> r.error == MissingUpdateId && result[|result| - 1].updateId.None?
    ensures r.Success? && r.value.Some? ==> Some(r.value.value - 1) == result[|result| - 1].updateId
  {
    if result == [] then Success(None)
    else
      var last := result[|result| - 1];
      if last.updateId.None? then Failure(MissingUpdateId)
      else Success(Some(last.updateId.value + 1))
  }

  /** What `tg_get_updates` makes of the call's outcome: the batch (the
      result list, empty when it is missing, null or empty) and the new
      offset. */
  function GetUpdates(call: Result<Envelope, Failure>): (r: Result<Fetched, FetchError>)
    ensures call.Failure? ==> r == Failure(CallFailed(call.error))
    ensures call.Success? && (call.value.result.None? || call.value.result == Some([]))
      ==> r == Success(Fetched([], None))
    ensures r.Success? ==>
      && call.Success?
      && r.value.updates == (if call.value.result.Some? then call.value.result.value else [])
      && (r.value.newOffset.None? <==> r.value.updates == [])
    ensures r.Failure? && call.Success? ==> r.error == MissingUpdateId
  {
    match call
    case Failure(f) => Failure(CallFailed(f))
    case Success(data) =>
      var result := if data.result.Some? then data.result.value else [];
      match NewOffset(result)
      case Failure(e) => Failure(e)
      case Success(o) => Success(Fetched(result, o))
  }

  /** Ids of a batch, all present and non-decreasing, as the platform
      delivers them. */
  predicate OrderedIds(us: seq<Update>)
  {
    (forall i :: 0 <= i < |us| ==> us[i].updateId.Some?)
    && (forall i, j :: 0 <= i <= j < |us| ==> us[i].updateId.value <= us[j].updateId.value)
  }

  /** An empty batch yields no new offset; a batch in platform order yields
      one past its largest id, so the new offset is above every id in it
      (the last element is then also the maximum). */
  lemma NewOffsetBounds(result: seq<Update>)
    requires OrderedIds(result)
    ensures result == [] ==> NewOffset(result) == Success(None)
    ensures result != [] ==> NewOffset(result).Success? && NewOffset(result).value.Some?
    ensures result != [] ==> forall i :: 0 <= i < |result| ==>
      result[i].updateId.value < NewOffset(result).value.value
    ensures result != [] ==>
      exists i :: 0 <= i < |result| && NewOffset(result).value.value == result[i].updateId.value + 1
  {
    if result != [] {
      assert NewOffset(result).value.value == result[|result| - 1].updateId.value + 1;
    }
  }

  /** The offset moves only when the fetch produced a new one. */
  function NextCursor(offset: Option<int>, newOffset: Option<int>): Option<int>
  {
    if newOffset.Some? then newOffset else offset
  }

  /** The cursor never moves backwards on a batch in platform order that
      starts at or above the current offset. */
  lemma CursorAdvances(offset: int, data: Envelope)
    requires GetUpdates(Success(data)).Success?
    requires var f := GetUpdates(Success(data)).value;
      OrderedIds(f.updates) && forall i :: 0 <= i < |f.updates| ==> f.updates[i].updateId.value >= offset
    ensures var f := GetUpdates(Success(data)).value;
      var next := NextCursor(Some(offset), f.newOffset);
      next.Some? && next.value >= offset
      && (f.updates != [] ==> next.value > offset)
  {
    var f := GetUpdates(Success(data)).value;
    NewOffsetBounds(f.updates);
    if f.updates != [] {
      assert f.updates[0].updateId.value >= offset;
    }
  }

  function FetchOf(attempts: seq<Attempt>): Result<Fetched, FetchError>
    requires |attempts| == RETRIES
  {
    GetUpdates(Call(attempts).result)
  }

  /** `handle_update`, consulting the limiter object in place. */
  method HandleUpdate(limiter: Limiter, admin: string, upd: Update, now: real) returns (d: Dispatch)
    requires limiter.Valid() && now > 0.0 && now >= limiter.latest
    modifies limiter
    ensures limiter.Valid()
    ensures Handle(limiter.enabled, old(limiter.State()), upd, now, admin) == Handling(d, limiter.State())
    ensures limiter.latest == old(limiter.latest) || limiter.latest == now
  {
    if upd.message.None? || !IsPrivateChat(upd.message.value) {
      return Ignored;
    }
    var m := upd.message.value;
    var userId := SenderId(m);
    if userId.None? {
      return Crashed;
    }
    var allowed, warn := limiter.Check(userId.value, now);
    d := Handled(Verdict(allowed, warn), Actions(m, Verdict(allowed, warn), admin));
  }

  /** Clock readings for a batch: positive, non-decreasing, and not before
      the limiter's latest reading. */
  predicate ClockOk(clocks: seq<real>, latest: real)
  {
    (forall i :: 0 <= i < |clocks| ==> clocks[i] > 0.0 && clocks[i] >= latest)
    && (forall i, j :: 0 <= i <= j < |clocks| ==> clocks[i] <= clocks[j])
  }

  /** One iteration of `main`'s `while True`: fetch with the current
      offset, handle every update of the batch, then move the offset if the
      fetch produced a new one. A failed fetch leaves the offset, handles
      nothing and sleeps SLEEP_ON_ERROR after the retry sleeps. */
  method PollOnce(limiter: Limiter, admin: string, offset: Option<int>, attempts: seq<Attempt>, clocks: seq<real>)
    returns (payload: map<string, Json>, next: Option<int>, dispatches: seq<Dispatch>, sleeps: seq<real>)
    requires limiter.Valid() && |attempts| == RETRIES && ClockOk(clocks, limiter.latest)
    requires FetchOf(attempts).Success? ==> |clocks| == |FetchOf(attempts).value.updates|
    modifies limiter
    ensures limiter.Valid()
    ensures payload == GetUpdatesPayload(offset)
    ensures FetchOf(attempts).Failure? ==>
      next == offset && dispatches == [] && limiter.State() == old(limiter.State())
      && sleeps == Call(attempts).sleeps + [SLEEP_ON_ERROR]
    ensures FetchOf(attempts).Success? ==>
      var f := FetchOf(attempts).value;
      var b := Batch(limiter.enabled, old(limiter.State()), f.updates, clocks, admin);
      next == NextCursor(offset, f.newOffset) && dispatches == b.dispatches
      && limiter.State() == b.after && sleeps == Call(attempts).sleeps
  {
    payload := GetUpdatesPayload(offset);
    var result, attemptsMade, callSleeps := TgCall(attempts);
    var fetched := GetUpdates(result);
    if fetched.Failure? {
      return payload, offset, [], callSleeps + [SLEEP_ON_ERROR];
    }
    var updates := fetched.value.updates;
    ghost var t0 := limiter.State();
    dispatches := [];
    for i := 0 to |updates|
      invariant limiter.Valid()
      invariant forall j :: i <= j < |clocks| ==> limiter.latest <= clocks[j]
      invariant Batch(limiter.enabled, t0, updates[..i], clocks[..i], admin)
        == BatchResult(dispatches, limiter.State())
    {
      var d := HandleUpdate(limiter, admin, updates[i], clocks[i]);
      dispatches := dispatches + [d];
      assert updates[..i + 1][..i] == updates[..i];
      assert clocks[..i + 1][..i] == clocks[..i];
    }
    assert updates[..|updates|] == updates && clocks[..|clocks|] == clocks;
    next := NextCursor(offset, fetched.value.newOffset);
    sleeps := callSleeps;
  }
}
