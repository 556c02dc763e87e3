/** The per-user anti-flood limiter of bot.py (`anti_flood_check` with the
    `_user_msgs` and `_user_cooldown` dictionaries): a sliding window of at
    most FLOOD_N messages per FLOOD_WINDOW_SEC seconds, and a cooldown of
    FLOOD_COOLDOWN_SEC seconds once the window overflows. Clock readings
    are `real` seconds passed in by the caller. */
module AntiFlood {
  import opened Wrappers

  const FLOOD_N: nat := 5
  const FLOOD_WINDOW_SEC: real := 60.0
  const FLOOD_COOLDOWN_SEC: real := 120.0

  /** Reply while a cooldown is running. */
  const TRY_LATER: string := "Слишком много сообщений. Пожалуйста, попробуйте позже."
  /** Reply to the message that overflows the window. */
  const TOO_MANY: string := "Слишком много сообщений за короткое время. Подождите немного и попробуйте снова."

  /** What the check returns: `(allowed, warn)`. */
  datatype Verdict = Verdict(allowed: bool, warn: Option<string>)

  /** The two dictionaries as values: user id to the deque of recorded
      timestamps, and user id to cooldown expiry. */
  datatype Tables = Tables(msgs: map<int, seq<real>>, cooldown: map<int, real>)

  datatype Checked = Checked(verdict: Verdict, after: Tables)

  /** The user's deque; a user never seen has an empty one (defaultdict). */
  function Times(t: Tables, u: int): seq<real>
  {
    if u in t.msgs then t.msgs[u] else []
  }

  function CooldownOf(t: Tables, u: int): Option<real>
  {
    if u in t.cooldown then Some(t.cooldown[u]) else None
  }

  /** A user is cooling down when a non-zero expiry is stored and not yet
      reached; a stored expiry of 0 is falsy in Python and so never blocks. */
  predicate CoolingDown(t: Tables, u: int, now: real)
  {
    u in t.cooldown && t.cooldown[u] != 0.0 && now < t.cooldown[u]
  }

  /** The eviction loop: drop entries from the front while the oldest one
      is more than FLOOD_WINDOW_SEC old. EvictSuffix shows that what remains
      is a suffix whose first entry lies within the window. */
  function Evict(q: seq<real>, now: real): seq<real>
    decreases |q|
  {
    if q != [] && now - q[0] > FLOOD_WINDOW_SEC then Evict(q[1..], now) else q
  }

  /** What the eviction loop leaves is a suffix of the deque whose first
      entry is at most FLOOD_WINDOW_SEC old, and every entry it removed was
      older than that. */
  lemma {:induction false} EvictSuffix(q: seq<real>, now: real)
    ensures var r := Evict(q, now);
      && |r| <= |q| && r == q[|q| - |r|..]
      && (r != [] ==> now - r[0] <= FLOOD_WINDOW_SEC)
      && (forall i :: 0 <= i < |q| - |r| ==> now - q[i] > FLOOD_WINDOW_SEC)
    decreases |q|
  {
    if q != [] && now - q[0] > FLOOD_WINDOW_SEC {
      EvictSuffix(q[1..], now);
      var r := Evict(q, now);
      forall i | 0 <= i < |q| - |r| ensures now - q[i] > FLOOD_WINDOW_SEC {
        if i > 0 { assert q[i] == q[1..][i - 1]; }
      }
    }
  }

  /** One call of `anti_flood_check(u)` at clock reading `now`. A denial
      always carries a warning and an allow never does. The call
      touches no other user's deque or expiry, and the user's own expiry
      changes only on a denial, to now + FLOOD_COOLDOWN_SEC. */
  function Step(enabled: bool, t: Tables, u: int, now: real): (r: Checked)
    ensures r.verdict.allowed <==> r.verdict.warn.None?
    ensures r.after == t || r.after.msgs == t.msgs[u := Times(r.after, u)]
    ensures r.after.cooldown == t.cooldown
         || (!r.verdict.allowed && r.after.cooldown == t.cooldown[u := now + FLOOD_COOLDOWN_SEC])
  {
    if !enabled then Checked(Verdict(true, None), t)
    else if CoolingDown(t, u, now) then Checked(Verdict(false, Some(TRY_LATER)), t)
    else
      var q := Evict(Times(t, u) + [now], now);
      var msgs := t.msgs[u := q];
      if |q| > FLOOD_N then
        Checked(Verdict(false, Some(TOO_MANY)), Tables(msgs, t.cooldown[u := now + FLOOD_COOLDOWN_SEC]))
      else
        Checked(Verdict(true, None), Tables(msgs, t.cooldown))
  }

  predicate Sorted(q: seq<real>)
  {
    forall i, j :: 0 <= i <= j < |q| ==> q[i] <= q[j]
  }

  /** Reference definition of the window: the entries of q at most
      FLOOD_WINDOW_SEC seconds old at `now`, in order. */
  function Recent(q: seq<real>, now: real): seq<real>
  {
    if q == [] then []
    else (if now - q[0] <= FLOOD_WINDOW_SEC then [q[0]] else []) + Recent(q[1..], now)
  }

  /** What holds of each user's entry between calls, given the latest
      clock reading: the deque is sorted, holds no future time, spans at
      most one window, holds at most FLOOD_N + 1 entries (only right after
      an overflow, whose time the cooldown remembers), a stored expiry is
      positive, and no entry was recorded while the cooldown ran. */
  ghost predicate EntryOk(q: seq<real>, cd: Option<real>, latest: real)
  {
    && Sorted(q)
    && (forall i :: 0 <= i < |q| ==> q[i] <= latest)
    && (q != [] ==> q[|q| - 1] - q[0] <= FLOOD_WINDOW_SEC)
    && |q| <= FLOOD_N + 1
    && (|q| == FLOOD_N + 1 ==> cd == Some(q[|q| - 1] + FLOOD_COOLDOWN_SEC))
    && (cd.Some? ==> cd.value > 0.0)
    && (cd.Some? ==> forall i :: 0 <= i < |q| ==> q[i] <= cd.value - FLOOD_COOLDOWN_SEC || q[i] >= cd.value)
  }

  ghost predicate Inv(t: Tables, latest: real)
  {
    forall u :: EntryOk(Times(t, u), CooldownOf(t, u), latest)
  }

  /** Appending `now` and evicting leaves a suffix of the old deque
      followed by `now`: the newest entry is never evicted. */
  lemma EvictAppended(q: seq<real>, now: real) returns (k: nat)
    ensures k <= |q| && Evict(q + [now], now) == q[k..] + [now]
    ensures k < |q| ==> now - q[k] <= FLOOD_WINDOW_SEC
    ensures forall i :: 0 <= i < k ==> now - q[i] > FLOOD_WINDOW_SEC
  {
    var s := q + [now];
    var r := Evict(s, now);
    EvictSuffix(s, now);
    assert !(now - s[|q|] > FLOOD_WINDOW_SEC);
    k := |s| - |r|;
    assert r == s[k..];
    assert s[k..] == q[k..] + [now];
    forall i | 0 <= i < k ensures now - q[i] > FLOOD_WINDOW_SEC {
      assert s[i] == q[i];
    }
  }

  lemma SortedSuffixSnoc(q: seq<real>, k: nat, x: real)
    requires Sorted(q) && k <= |q| && forall i :: 0 <= i < |q| ==> q[i] <= x
    ensures Sorted(q[k..] + [x])
  {
  }

  /** The part of the new entry that concerns times: sorted, no future
      entry, at most one window wide. */
  lemma NewWindow(q: seq<real>, k: nat, now: real)
    requires Sorted(q) && k <= |q| && forall i :: 0 <= i < |q| ==> q[i] <= now
    requires k < |q| ==> now - q[k] <= FLOOD_WINDOW_SEC
    ensures var r := q[k..] + [now];
      && Sorted(r)
      && (forall i :: 0 <= i < |r| ==> r[i] <= now)
      && r[|r| - 1] - r[0] <= FLOOD_WINDOW_SEC
  {
    SortedSuffixSnoc(q, k, now);
  }

  /** An overflowing deque is emptied by the first check after its
      cooldown: every entry is then older than the window. */
  lemma OverflowEvicted(q: seq<real>, k: nat, now: real)
    requires Sorted(q) && |q| == FLOOD_N + 1 && k <= |q|
    requires now >= q[|q| - 1] + FLOOD_COOLDOWN_SEC
    requires k < |q| ==> now - q[k] <= FLOOD_WINDOW_SEC
    ensures k == |q|
  {
  }

  /** Entries recorded after the cooldown expired keep the "nothing
      recorded during the cooldown" clause. */
  lemma NoneDuringCooldown(q: seq<real>, k: nat, c: real, now: real)
    requires k <= |q| && now >= c
    requires forall i :: 0 <= i < |q| ==> q[i] <= c - FLOOD_COOLDOWN_SEC || q[i] >= c
    ensures var r := q[k..] + [now];
      forall i :: 0 <= i < |r| ==> r[i] <= c - FLOOD_COOLDOWN_SEC || r[i] >= c
  {
    var r := q[k..] + [now];
    forall i | 0 <= i < |r|
      ensures r[i] <= c - FLOOD_COOLDOWN_SEC || r[i] >= c
    {
      if i < |r| - 1 {
        assert r[i] == q[k + i];
      }
    }
  }

  /** The entry of the user being checked stays well formed. */
  lemma EntryStep(q: seq<real>, cd: Option<real>, latest: real, now: real)
    requires EntryOk(q, cd, latest) && now >= latest && now > 0.0
    requires !(cd.Some? && cd.value != 0.0 && now < cd.value)
    ensures var r := Evict(q + [now], now);
      EntryOk(r, if |r| > FLOOD_N then Some(now + FLOOD_COOLDOWN_SEC) else cd, now)
  {
    var k := EvictAppended(q, now);
    var r := q[k..] + [now];
    var cd' := if |r| > FLOOD_N then Some(now + FLOOD_COOLDOWN_SEC) else cd;
    NewWindow(q, k, now);
    if |q| == FLOOD_N + 1 {
      OverflowEvicted(q, k, now);
    }
    if |r| > FLOOD_N {
      assert forall i :: 0 <= i < |r| ==> r[i] <= cd'.value - FLOOD_COOLDOWN_SEC;
    } else if cd.Some? {
      NoneDuringCooldown(q, k, cd.value, now);
    }
    EntryOkIntro(r, cd', now);
  }

  lemma EntryOkIntro(r: seq<real>, cd: Option<real>, now: real)
    requires Sorted(r)
    requires forall i :: 0 <= i < |r| ==> r[i] <= now
    requires r != [] ==> r[|r| - 1] - r[0] <= FLOOD_WINDOW_SEC
    requires |r| <= FLOOD_N + 1
    requires |r| == FLOOD_N + 1 ==> cd == Some(r[|r| - 1] + FLOOD_COOLDOWN_SEC)
    requires cd.Some? ==> cd.value > 0.0
    requires cd.Some? ==> forall i :: 0 <= i < |r| ==> r[i] <= cd.value - FLOOD_COOLDOWN_SEC || r[i] >= cd.value
    ensures EntryOk(r, cd, now)
  {
  }

  /** A later clock reading keeps an entry well formed. */
  lemma EntryOkLater(q: seq<real>, cd: Option<real>, latest: real, now: real)
    requires EntryOk(q, cd, latest) && latest <= now
    ensures EntryOk(q, cd, now)
  {
  }

  /** Every call keeps every user's entry well formed. */
  lemma StepKeepsInv(enabled: bool, t: Tables, latest: real, u: int, now: real)
    requires Inv(t, latest) && now >= latest && now > 0.0
    ensures Inv(Step(enabled, t, u, now).after, now)
  {
    var after := Step(enabled, t, u, now).after;
    forall v ensures EntryOk(Times(after, v), CooldownOf(after, v), now) {
      var q, cd := Times(t, v), CooldownOf(t, v);
      assert EntryOk(q, cd, latest);
      if v == u && enabled && !CoolingDown(t, u, now) {
        EntryStep(q, cd, latest, now);
        var r := Evict(q + [now], now);
        assert Times(after, v) == r;
        assert CooldownOf(after, v) == if |r| > FLOOD_N then Some(now + FLOOD_COOLDOWN_SEC) else cd;
      } else {
        EntryOkLater(q, cd, latest, now);
        assert Times(after, v) == q && CooldownOf(after, v) == cd;
      }
    }
  }

  /** During a running cooldown the check denies with the "try later" text
      and changes neither dictionary. */
  lemma CooldownDenies(t: Tables, u: int, now: real)
    requires CoolingDown(t, u, now)
    ensures Step(true, t, u, now) == Checked(Verdict(false, Some(TRY_LATER)), t)
  {
  }

  /** With the limiter switched off every check is allowed, with no
      message, and nothing is recorded. */
  lemma DisabledAllows(t: Tables, u: int, now: real)
    ensures Step(false, t, u, now) == Checked(Verdict(true, None), t)
  {
  }

  /** Outside a cooldown the new deque holds `now` as its last entry and
      only entries in [now - FLOOD_WINDOW_SEC, now], in order; entries
      exactly FLOOD_WINDOW_SEC old are kept. */
  lemma WindowAfterCheck(t: Tables, latest: real, u: int, now: real)
    requires EntryOk(Times(t, u), CooldownOf(t, u), latest) && now >= latest
    requires !CoolingDown(t, u, now)
    ensures var q := Times(Step(true, t, u, now).after, u);
      && q != [] && q[|q| - 1] == now && Sorted(q)
      && (forall i :: 0 <= i < |q| ==> now - FLOOD_WINDOW_SEC <= q[i] <= now)
      && (forall x :: x in Times(t, u) && now - x == FLOOD_WINDOW_SEC ==> x in q)
  {
    var p := Times(t, u);
    var k := EvictAppended(p, now);
    NewWindow(p, k, now);
    WindowOf(p, k, now);
    assert Times(Step(true, t, u, now).after, u) == p[k..] + [now];
  }

  lemma WindowOf(p: seq<real>, k: nat, now: real)
    requires Sorted(p) && k <= |p| && forall i :: 0 <= i < |p| ==> p[i] <= now
    requires k < |p| ==> now - p[k] <= FLOOD_WINDOW_SEC
    requires forall i :: 0 <= i < k ==> now - p[i] > FLOOD_WINDOW_SEC
    ensures var q := p[k..] + [now];
      && (forall i :: 0 <= i < |q| ==> now - FLOOD_WINDOW_SEC <= q[i] <= now)
      && (forall x :: x in p && now - x == FLOOD_WINDOW_SEC ==> x in q)
  {
    var q := p[k..] + [now];
    forall i | 0 <= i < |q| ensures now - FLOOD_WINDOW_SEC <= q[i] <= now {
      if i < |q| - 1 {
        assert q[i] == p[k + i] && p[k] <= p[k + i];
      }
    }
    forall x | x in p && now - x == FLOOD_WINDOW_SEC ensures x in q {
      var i :| 0 <= i < |p| && p[i] == x;
      assert q[i - k] == x;
    }
  }

  /** Once an entry is within the window all later ones are too. */
  lemma {:induction false} AllRecent(q: seq<real>, now: real)
    requires forall i :: 0 <= i < |q| ==> now - q[i] <= FLOOD_WINDOW_SEC
    ensures Recent(q, now) == q
  {
    if q != [] {
      AllRecent(q[1..], now);
    }
  }

  /** On a sorted deque the eviction loop computes the window exactly. */
  lemma {:induction false} EvictIsRecent(q: seq<real>, now: real)
    requires Sorted(q)
    ensures Evict(q, now) == Recent(q, now)
  {
    if q != [] {
      if now - q[0] > FLOOD_WINDOW_SEC {
        EvictIsRecent(q[1..], now);
      } else {
        AllRecent(q, now);
      }
    }
  }

  lemma {:induction false} RecentAppend(q: seq<real>, x: real, now: real)
    ensures Recent(q + [x], now) == Recent(q, now) + Recent([x], now)
  {
    if q != [] {
      assert (q + [x])[1..] == q[1..] + [x];
      RecentAppend(q[1..], x, now);
    }
  }

  /** Outside a cooldown a message is allowed exactly when fewer than
      FLOOD_N earlier recorded messages are within the window, so the
      FLOOD_N-th is allowed and the one after is denied; a denial sets the
      expiry to now + FLOOD_COOLDOWN_SEC and an allowed call leaves the
      cooldowns alone. */
  lemma ThresholdIff(t: Tables, latest: real, u: int, now: real)
    requires EntryOk(Times(t, u), CooldownOf(t, u), latest) && now >= latest
    requires !CoolingDown(t, u, now)
    ensures var c := Step(true, t, u, now);
      && (c.verdict.allowed <==> |Recent(Times(t, u), now)| < FLOOD_N)
      && (c.verdict.allowed ==> c.verdict.warn == None && c.after.cooldown == t.cooldown)
      && (!c.verdict.allowed ==>
            c.verdict.warn == Some(TOO_MANY) && c.after.cooldown == t.cooldown[u := now + FLOOD_COOLDOWN_SEC])
  {
    var q := Times(t, u);
    assert Sorted(q + [now]);
    EvictIsRecent(q + [now], now);
    RecentAppend(q, now, now);
  }

  /** After a cooldown expires the next check is judged on the window
      alone: the entries recorded before the cooldown are all evicted and
      the message is allowed. */
  lemma ExpiredCooldownAllows(t: Tables, latest: real, u: int, now: real)
    requires Inv(t, latest) && u in t.cooldown && t.cooldown[u] <= now
    requires forall i :: 0 <= i < |Times(t, u)| ==> Times(t, u)[i] < t.cooldown[u]
    ensures var c := Step(true, t, u, now);
      c.verdict == Verdict(true, None) && Times(c.after, u) == [now]
  {
    var q := Times(t, u);
    assert EntryOk(q, CooldownOf(t, u), latest);
    assert forall i :: 0 <= i < |q| ==> q[i] <= t.cooldown[u] - FLOOD_COOLDOWN_SEC;
    var k := EvictAppended(q, now);
    assert Evict(q + [now], now) == [now];
  }

  /** Two users: user 1 fills its window at 1..6 s and gets a cooldown
      until 126 s, user 2 checks at 300 s, and user 1's next check at
      400 s is allowed with a fresh queue. */
  lemma ExpiredAfterOtherUser()
    ensures var t := Tables(map[1 := [1.0, 2.0, 3.0, 4.0, 5.0, 6.0], 2 := [300.0]], map[1 := 126.0]);
      Inv(t, 300.0)
      && Step(true, t, 1, 400.0).verdict == Verdict(true, None)
      && Times(Step(true, t, 1, 400.0).after, 1) == [400.0]
  {
    var t := Tables(map[1 := [1.0, 2.0, 3.0, 4.0, 5.0, 6.0], 2 := [300.0]], map[1 := 126.0]);
    forall v ensures EntryOk(Times(t, v), CooldownOf(t, v), 300.0) {
      if v == 1 {
        var q := Times(t, v);
        assert q == [1.0, 2.0, 3.0, 4.0, 5.0, 6.0];
        assert Sorted(q);
      } else if v == 2 {
        assert Times(t, v) == [300.0];
      }
    }
    ExpiredCooldownAllows(t, 300.0, 1, 400.0);
  }

  datatype Trace = Trace(verdicts: seq<Verdict>, after: Tables)

  /** Successive checks of one user at the given clock readings. */
  function Run(t: Tables, u: int, times: seq<real>): (r: Trace)
    ensures |r.verdicts| == |times|
    decreases |times|
  {
    if times == [] then Trace([], t)
    else
      var c := Step(true, t, u, times[0]);
      var rest := Run(c.after, u, times[1..]);
      Trace([c.verdict] + rest.verdicts, rest.after)
  }

  /** Clock readings, in order, all within one window. */
  predicate Burst(s: seq<real>)
  {
    Sorted(s) && (forall i :: 0 <= i < |s| ==> s[i] > 0.0)
    && (s != [] ==> s[|s| - 1] - s[0] <= FLOOD_WINDOW_SEC)
  }

  /** The reply the burst lemma predicts for the n-th message (0-based). */
  function BurstReply(n: nat): Verdict
  {
    if n < FLOOD_N then Verdict(true, None)
    else if n == FLOOD_N then Verdict(false, Some(TOO_MANY))
    else Verdict(false, Some(TRY_LATER))
  }

  lemma {:induction false} BurstFrom(t: Tables, u: int, done: seq<real>, todo: seq<real>)
    requires Burst(done + todo)
    requires |done| <= FLOOD_N ==> Times(t, u) == done && u !in t.cooldown
    requires |done| > FLOOD_N ==> u in t.cooldown && t.cooldown[u] == done[FLOOD_N] + FLOOD_COOLDOWN_SEC
    ensures forall i :: 0 <= i < |todo| ==> Run(t, u, todo).verdicts[i] == BurstReply(|done| + i)
    decreases |todo|
  {
    if todo != [] {
      var s := done + todo;
      var x := todo[0];
      assert x == s[|done|];
      var c := Step(true, t, u, x);
      if |done| > FLOOD_N {
        assert s[0] <= s[FLOOD_N] == done[FLOOD_N] && s[FLOOD_N] > 0.0;
        assert x - s[0] <= FLOOD_WINDOW_SEC;
        assert CoolingDown(t, u, x);
      } else {
        assert Evict(done + [x], x) == done + [x];
      }
      assert s == (done + [x]) + todo[1..];
      BurstFrom(c.after, u, done + [x], todo[1..]);
    }
  }

  /** A user with no history who sends messages all within one window has
      the first FLOOD_N allowed, the next one denied with the "too many"
      text and every later one denied by the cooldown (so, for instance,
      of six messages sent within ten seconds, the sixth is denied). */
  lemma FloodBurst(t: Tables, u: int, times: seq<real>)
    requires Times(t, u) == [] && u !in t.cooldown
    requires Burst(times)
    ensures forall i :: 0 <= i < |times| ==> Run(t, u, times).verdicts[i] == BurstReply(i)
  {
    var none: seq<real> := [];
    assert none + times == times;
    BurstFrom(t, u, none, times);
  }

  /** The limiter as the process-wide object holding both dictionaries.
      `latest` is the latest clock reading passed to Check. */
  class Limiter {
    const enabled: bool
    var msgs: map<int, seq<real>>
    var cooldown: map<int, real>
    ghost var latest: real

    function State(): Tables
      reads this
    {
      Tables(msgs, cooldown)
    }

    ghost predicate Valid()
      reads this
    {
      Inv(State(), latest)
    }

    constructor (enabled: bool)
      ensures Valid() && this.enabled == enabled
      ensures State() == Tables(map[], map[]) && latest == 0.0
    {
      this.enabled := enabled;
      msgs, cooldown := map[], map[];
      latest := 0.0;
    }

    /** `anti_flood_check(u)` with the clock reading `now`. The deque of
        the user is updated in place: append, then pop from the front. */
    method Check(u: int, now: real) returns (allowed: bool, warn: Option<string>)
      requires Valid() && now > 0.0 && now >= latest
      modifies this
      ensures Valid()
      ensures Step(enabled, old(State()), u, now) == Checked(Verdict(allowed, warn), State())
      ensures latest == if enabled then now else old(latest)
    {
      if !enabled {
        return true, None;
      }
      ghost var t0 := State();
      StepKeepsInv(enabled, t0, latest, u, now);
      latest := now;
      var cooldownUntil: Option<real> := if u in cooldown then Some(cooldown[u]) else None;
      if cooldownUntil.Some? && cooldownUntil.value != 0.0 && now < cooldownUntil.value {
        return false, Some(TRY_LATER);
      }
      if u !in msgs {
        msgs := msgs[u := []];
      }
      msgs := msgs[u := msgs[u] + [now]];
      while msgs[u] != [] && now - msgs[u][0] > FLOOD_WINDOW_SEC
        invariant u in msgs && msgs == t0.msgs[u := msgs[u]]
        invariant cooldown == t0.cooldown && latest == now
        invariant Evict(msgs[u], now) == Evict(Times(t0, u) + [now], now)
        decreases |msgs[u]|
      {
        msgs := msgs[u := msgs[u][1..]];
      }
      if |msgs[u]| > FLOOD_N {
        cooldown := cooldown[u := now + FLOOD_COOLDOWN_SEC];
        return false, Some(TOO_MANY);
      }
      return true, None;
    }
  }
}
