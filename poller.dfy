/** bot_poller.py: the one-shot poller that turns each new update into an
    issue in the issue tracker and answers the sender with its number. A
    run reads the cursor file, fetches one batch, processes it and writes
    the cursor back. HTTP calls and the file are parameters: the fetch
    outcome and each issue-creation outcome are inputs, the issues, replies
    and the cursor file's new content are outputs. */
module Poller {
  import opened Wrappers
  import opened Updates
  import opened PyStr

  const MAX_UPDATES: int := 100
  const DEFAULT_LABEL: string := "idea"
  const SNIPPET_LEN: nat := 60
  /** The cursor a first run writes when there is no history. */
  const FIRST_CURSOR: int := 1
  const NON_TEXT: string := "<non-text message>"
  const NO_TEXT: string := "(без текста)"
  const UNKNOWN: string := "unknown"
  const TITLE_PREFIX: string := "Идея от "
  const REPLY_PREFIX: string := "Спасибо! Ваша идея сохранена как issue #"
  const REPLY_SUFFIX: string := ". Мы её рассмотрим."

  /** Query parameters of `get_updates`: `limit` always, `offset` unless it
      is None, `timeout` unless it is 0. */
  function GetUpdatesParams(offset: Option<int>, limit: int, timeout: int): (p: map<string, int>)
    ensures "limit" in p && p["limit"] == limit
    ensures ("offset" in p <==> offset.Some?) && (offset.Some? ==> p["offset"] == offset.value)
    ensures ("timeout" in p <==> timeout != 0) && (timeout != 0 ==> p["timeout"] == timeout)
    ensures p.Keys <= {"limit", "offset", "timeout"}
  {
    var withOffset := if offset.Some? then map["limit" := limit, "offset" := offset.value] else map["limit" := limit];
    if timeout != 0 then withOffset["timeout" := timeout] else withOffset
  }

  /** `read_last_update`: None when the file is missing (`content` None)
      or its stripped content is not an integer, so in particular when it
      is empty or all whitespace. */
  function ReadLastUpdate(content: Option<string>): (r: Option<int>)
    ensures content.None? ==> r == None
    ensures content.Some? && AllSpace(content.value) ==> r == None
  {
    if content.None? then None
    else
      StripEmptyIff(content.value);
      ParseInt(Strip(content.value))
  }

  /** `write_last_update`: the file's new content, which the next run's
      `read_last_update` reads back as the same id. */
  function WriteLastUpdate(updateId: int): (r: string)
    ensures ReadLastUpdate(Some(r)) == Some(updateId)
  {
    IntRoundTrip(updateId);
    IntToString(updateId)
  }

  /** The title snippet: the first line of the stripped text, cut to
      SNIPPET_LEN characters. It is the longest line-feed-free prefix of the
      stripped text of at most that length. */
  function Snippet(text: string): (r: string)
    ensures |r| <= SNIPPET_LEN && '\n' !in r
    ensures |r| <= |Strip(text)| && r == Strip(text)[..|r|]
    ensures |r| == SNIPPET_LEN || |r| == |Strip(text)| || Strip(text)[|r|] == '\n'
  {
    var line := FirstLine(Strip(text));
    FirstLineSpec(Strip(text));
    if |line| <= SNIPPET_LEN then line else line[..SNIPPET_LEN]
  }

  /** The snippet is empty exactly when the text is all whitespace. */
  lemma SnippetEmptyIff(text: string)
    ensures Snippet(text) == [] <==> forall k :: 0 <= k < |text| ==> IsSpace(text[k])
  {
    StripEmptyIff(text);
    var s := Strip(text);
    if s != [] {
      var i, j := StripSpec(text);
      assert s[0] == text[i] && !IsSpace(s[0]);
      assert s[0] != '\n';
      FirstLineSpec(s);
      assert |FirstLine(s)| > 0;
    }
  }

  /** The sender's display name: the username when it is non-empty,
      otherwise the stripped join of the non-empty first and last names,
      otherwise "unknown". */
  function UserName(sender: Option<User>): (r: string)
    ensures r != []
    ensures sender.Some? && sender.value.username.Some? && sender.value.username.value != []
      ==> r == sender.value.username.value
    ensures sender.None? ==> r == UNKNOWN
    ensures sender.Some? && (sender.value.username.None? || sender.value.username.value == [])
      && Blank(sender.value.firstName) && Blank(sender.value.lastName)
      ==> r == UNKNOWN
  {
    var u := if sender.Some? then sender.value else User(None, None, None, None);
    if u.username.Some? && u.username.value != [] then u.username.value
    else
      var first := if u.firstName.Some? then u.firstName.value else "";
      var last := if u.lastName.Some? then u.lastName.value else "";
      BlankJoin(first, last);
      var joined := Strip(JoinNonEmpty(" ", [first, last]));
      if joined != [] then joined else UNKNOWN
  }

  /** A name part that contributes nothing: missing, empty or all
      whitespace. */
  predicate Blank(part: Option<string>)
  {
    part.None? || AllSpace(part.value)
  }

  /** Joining two all-whitespace name parts strips to nothing. */
  lemma BlankJoin(first: string, last: string)
    ensures AllSpace(first) && AllSpace(last) ==> Strip(JoinNonEmpty(" ", [first, last])) == []
  {
    JoinTwo(" ", first, last);
    var j := JoinNonEmpty(" ", [first, last]);
    if AllSpace(first) && AllSpace(last) {
      if first != [] && last != [] {
        forall k | 0 <= k < |j| ensures IsSpace(j[k]) {
          if k < |first| {
            assert j[k] == first[k];
          } else if k > |first| {
            assert j[k] == last[k - |first| - 1];
          }
        }
      }
      StripEmptyIff(j);
    }
  }

  predicate Trimmed(s: string)
  {
    s == [] || (!IsSpace(s[0]) && !IsSpace(s[|s| - 1]))
  }

  /** Without a username, trimmed names are used as they are, joined by
      one space when both are present. */
  lemma UserNameFromNames(first: string, last: string)
    requires Trimmed(first) && Trimmed(last) && (first != [] || last != [])
    ensures UserName(Some(User(None, None, Some(first), Some(last))))
      == if first == [] then last else if last == [] then first else first + " " + last
  {
    JoinTwo(" ", first, last);
    var j := JoinNonEmpty(" ", [first, last]);
    if first != [] && last != [] {
      assert j[0] == first[0] && j[|j| - 1] == last[|last| - 1];
    }
    StripTrimmed(j);
  }

  /** The issue text: the first non-empty of the text and the caption, or
      the placeholder; never empty. */
  function MessageText(m: Message): (r: string)
    ensures r != []
    ensures m.text.Some? && m.text.value != [] ==> r == m.text.value
    ensures (m.text.None? || m.text.value == []) && m.caption.Some? && m.caption.value != []
      ==> r == m.caption.value
    ensures (m.text.None? || m.text.value == []) && (m.caption.None? || m.caption.value == [])
      ==> r == NON_TEXT
  {
    if m.text.Some? && m.text.value != [] then m.text.value
    else if m.caption.Some? && m.caption.value != [] then m.caption.value
    else NON_TEXT
  }

  /** The issue title: the fixed prefix, the name, a colon and the
      snippet, or "(без текста)" when the snippet is empty; at most
      SNIPPET_LEN characters follow the colon. */
  function Title(userName: string, text: string): (r: string)
    ensures |r| <= |TITLE_PREFIX| + |userName| + 2 + SNIPPET_LEN
    ensures |r| > |TITLE_PREFIX| + |userName| + 2
    ensures r[..|TITLE_PREFIX| + |userName| + 2] == TITLE_PREFIX + userName + ": "
  {
    var snippet := Snippet(text);
    TITLE_PREFIX + userName + ": " + (if snippet == [] then NO_TEXT else snippet)
  }

  /** The title falls back to "(без текста)" exactly for all-whitespace
      text; otherwise it carries the non-empty snippet. */
  lemma TitleCases(userName: string, text: string)
    ensures (forall k :: 0 <= k < |text| ==> IsSpace(text[k]))
      ==> Title(userName, text) == TITLE_PREFIX + userName + ": " + NO_TEXT
    ensures (exists k :: 0 <= k < |text| && !IsSpace(text[k]))
      ==> Snippet(text) != [] && Title(userName, text) == TITLE_PREFIX + userName + ": " + Snippet(text)
  {
    SnippetEmptyIff(text);
  }

  /** `str(issue_number)` inside the reply; a missing number prints as
      "None". */
  function ReplyText(issueNumber: Option<int>): (r: string)
    ensures |r| >= |REPLY_PREFIX| + |REPLY_SUFFIX|
    ensures r[..|REPLY_PREFIX|] == REPLY_PREFIX && r[|r| - |REPLY_SUFFIX|..] == REPLY_SUFFIX
    ensures issueNumber.Some? ==> ParseInt(r[|REPLY_PREFIX|..|r| - |REPLY_SUFFIX|]) == issueNumber
    ensures issueNumber.None? ==> r[|REPLY_PREFIX|..|r| - |REPLY_SUFFIX|] == "None"
  {
    var number := if issueNumber.Some? then IntToString(issueNumber.value) else "None";
    var r := REPLY_PREFIX + number + REPLY_SUFFIX;
    assert r[..|REPLY_PREFIX|] == REPLY_PREFIX && r[|r| - |REPLY_SUFFIX|..] == REPLY_SUFFIX;
    assert r[|REPLY_PREFIX|..|r| - |REPLY_SUFFIX|] == number;
    if issueNumber.Some? then IntRoundTrip(issueNumber.value); r else r
  }

  /** The issue body's fields; the Markdown layout and the formatting of
      the date are not modelled. */
  datatype IssueBody = IssueBody(
    sender: string, chatId: Option<int>, chatType: Option<string>, date: Option<int>, text: string)

  datatype Effect =
    | CreateIssue(title: string, body: IssueBody, labels: seq<string>)
    | Reply(chatId: Option<int>, text: string)

  /** What became of one issue creation: created (with the number the
      tracker returned, if any) or failed with an exception. */
  datatype IssueOutcome = Created(number: Option<int>) | CreateFailed

  /** The message of an update, or its channel post when it has none. */
  function PostOf(upd: Update): Option<Message>
  {
    if upd.message.Some? then upd.message else upd.channelPost
  }

  function BodyOf(m: Message): IssueBody
  {
    var chatType := if m.chat.Some? then m.chat.value.kind else None;
    IssueBody(UserName(m.sender), ChatId(m), chatType, None, MessageText(m))
  }

  /** The effects for one update: an issue for a message or channel post,
      followed by a reply when the issue was created. */
  function UpdateEffects(upd: Update, outcome: IssueOutcome): seq<Effect>
  {
    var post := PostOf(upd);
    if post.None? then []
    else
      var m := post.value;
      var issue := CreateIssue(Title(UserName(m.sender), MessageText(m)), BodyOf(m), [DEFAULT_LABEL]);
      if outcome.Created? then [issue, Reply(ChatId(m), ReplyText(outcome.number))] else [issue]
  }

  /** Nothing for an update without a message or channel post; otherwise
      the issue (labelled "idea") first, then a reply to the message's chat
      exactly when the creation succeeded. */
  lemma UpdateEffectsShape(upd: Update, outcome: IssueOutcome)
    ensures var r := UpdateEffects(upd, outcome);
      (PostOf(upd).None? ==> r == [])
      && (PostOf(upd).Some? ==> |r| >= 1 && r[0].CreateIssue? && r[0].labels == [DEFAULT_LABEL])
      && (|r| == 2 <==> PostOf(upd).Some? && outcome.Created?)
      && |r| <= 2 && (|r| == 2 ==> r[1] == Reply(ChatId(PostOf(upd).value), ReplyText(outcome.number)))
  {
  }

  /** The issue is built from the message when there is one, even if the
      update also has a channel post, and from the channel post otherwise;
      an update with neither has no effect. */
  lemma MessageBeforeChannelPost(upd: Update, outcome: IssueOutcome)
    ensures upd.message.None? && upd.channelPost.None? ==> UpdateEffects(upd, outcome) == []
    ensures upd.message.Some? ==> UpdateEffects(upd, outcome)[0].body == BodyOf(upd.message.value)
    ensures upd.message.None? && upd.channelPost.Some?
      ==> UpdateEffects(upd, outcome)[0].body == BodyOf(upd.channelPost.value)
  {
  }

  function AllEffects(upds: seq<Update>, outcomes: seq<IssueOutcome>): (r: seq<Effect>)
    requires |outcomes| == |upds|
  {
    if upds == [] then []
    else
      var n := |upds| - 1;
      AllEffects(upds[..n], outcomes[..n]) + UpdateEffects(upds[n], outcomes[n])
  }

  predicate RepliesFollowIssues(e: seq<Effect>)
  {
    forall i :: 0 <= i < |e| && e[i].Reply? ==> i > 0 && e[i - 1].CreateIssue?
  }

  lemma RepliesFollowAppend(p: seq<Effect>, u: seq<Effect>)
    requires RepliesFollowIssues(p) && RepliesFollowIssues(u) && (u == [] || !u[0].Reply?)
    ensures RepliesFollowIssues(p + u)
  {
    var e := p + u;
    forall i | 0 <= i < |e| && e[i].Reply?
      ensures i > 0 && e[i - 1].CreateIssue?
    {
      if i < |p| {
        assert e[i] == p[i] && e[i - 1] == p[i - 1];
      } else {
        assert e[i] == u[i - |p|] && e[i - 1] == u[i - |p| - 1];
      }
    }
  }

  /** A reply is always sent directly after the issue it announces. */
  lemma {:induction false} ReplyFollowsIssue(upds: seq<Update>, outcomes: seq<IssueOutcome>)
    requires |outcomes| == |upds|
    ensures RepliesFollowIssues(AllEffects(upds, outcomes))
  {
    if upds != [] {
      var n := |upds| - 1;
      ReplyFollowsIssue(upds[..n], outcomes[..n]);
      UpdateEffectsShape(upds[n], outcomes[n]);
      RepliesFollowAppend(AllEffects(upds[..n], outcomes[..n]), UpdateEffects(upds[n], outcomes[n]));
    }
  }

  function CountIssues(effects: seq<Effect>): nat
  {
    if effects == [] then 0
    else CountIssues(effects[..|effects| - 1]) + (if effects[|effects| - 1].CreateIssue? then 1 else 0)
  }

  function CountPosts(upds: seq<Update>): nat
  {
    if upds == [] then 0
    else CountPosts(upds[..|upds| - 1]) + (if PostOf(upds[|upds| - 1]).Some? then 1 else 0)
  }

  lemma {:induction false} CountIssuesAppend(a: seq<Effect>, b: seq<Effect>)
    ensures CountIssues(a + b) == CountIssues(a) + CountIssues(b)
    decreases |b|
  {
    if b != [] {
      var n := |b| - 1;
      assert (a + b)[..|a + b| - 1] == a + b[..n];
      CountIssuesAppend(a, b[..n]);
    } else {
      assert a + b == a;
    }
  }

  /** Exactly one issue is attempted per update that carries a message or
      channel post, whatever the outcomes of the creations. */
  lemma {:induction false} OneIssuePerPost(upds: seq<Update>, outcomes: seq<IssueOutcome>)
    requires |outcomes| == |upds|
    ensures CountIssues(AllEffects(upds, outcomes)) == CountPosts(upds)
  {
    if upds != [] {
      var n := |upds| - 1;
      OneIssuePerPost(upds[..n], outcomes[..n]);
      var u := UpdateEffects(upds[n], outcomes[n]);
      CountIssuesAppend(AllEffects(upds[..n], outcomes[..n]), u);
      UpdateIssueCount(upds[n], outcomes[n]);
    }
  }

  lemma UpdateIssueCount(upd: Update, outcome: IssueOutcome)
    ensures CountIssues(UpdateEffects(upd, outcome)) == if PostOf(upd).Some? then 1 else 0
  {
    var u := UpdateEffects(upd, outcome);
    UpdateEffectsShape(upd, outcome);
    if |u| == 2 {
      assert u[..1] == [u[0]] && [u[0]][..0] == [];
      assert CountIssues(u[..1]) == 1;
    } else if |u| == 1 {
      assert u[..0] == [];
    }
  }

  /** `max_id` of `process_updates`: the largest id present, or None when
      no update has one (the first update always sets it, so a leading
      missing id leaves it None until a present one comes). */
  function MaxId(upds: seq<Update>): Option<int>
  {
    if upds == [] then None
    else
      var prev := MaxId(upds[..|upds| - 1]);
      var id := upds[|upds| - 1].updateId;
      if prev.None? || (id.Some? && id.value > prev.value) then id else prev
  }

  /** The maximum is None exactly when no id is present; otherwise it is
      one of the ids and no present id exceeds it. */
  lemma {:induction false} MaxIdSpec(upds: seq<Update>)
    ensures MaxId(upds).None? <==> forall i :: 0 <= i < |upds| ==> upds[i].updateId.None?
    ensures MaxId(upds).Some? ==> exists i :: 0 <= i < |upds| && upds[i].updateId == MaxId(upds)
    ensures MaxId(upds).Some? ==>
      forall i :: 0 <= i < |upds| && upds[i].updateId.Some? ==> upds[i].updateId.value <= MaxId(upds).value
  {
    if upds != [] {
      var n := |upds| - 1;
      MaxIdSpec(upds[..n]);
      assert forall i :: 0 <= i < n ==> upds[..n][i] == upds[i];
      var prev := MaxId(upds[..n]);
      if prev.Some? && MaxId(upds) == prev {
        var i :| 0 <= i < n && upds[..n][i].updateId == prev;
        assert upds[i].updateId == prev;
      }
    }
  }

  /** The body of `process_updates`'s loop after the id scan: an issue
      for a message or channel post, then the reply if it was created. */
  method IssueAndReply(upd: Update, outcome: IssueOutcome) returns (effects: seq<Effect>)
    ensures effects == UpdateEffects(upd, outcome)
  {
    var message := PostOf(upd);
    if message.None? {
      return [];
    }
    var m := message.value;
    var userName := UserName(m.sender);
    var text := MessageText(m);
    effects := [CreateIssue(Title(userName, text), BodyOf(m), [DEFAULT_LABEL])];
    match outcome
    case Created(number) =>
      effects := effects + [Reply(ChatId(m), ReplyText(number))];
    case CreateFailed =>
  }

  /** `process_updates`: every update is scanned for the largest id, and
      every one with a message produces its issue and, on success, its
      reply. */
  method ProcessUpdates(updates: seq<Update>, outcomes: seq<IssueOutcome>) returns (maxId: Option<int>, effects: seq<Effect>)
    requires |outcomes| == |updates|
    ensures maxId == MaxId(updates)
    ensures effects == AllEffects(updates, outcomes)
  {
    if |updates| == 0 {
      return None, [];
    }
    maxId := None;
    effects := [];
    for i := 0 to |updates|
      invariant maxId == MaxId(updates[..i])
      invariant effects == AllEffects(updates[..i], outcomes[..i])
    {
      assert updates[..i + 1][..i] == updates[..i] && outcomes[..i + 1][..i] == outcomes[..i];
      var updateId := updates[i].updateId;
      if maxId.None? || (updateId.Some? && updateId.value > maxId.value) {
        maxId := updateId;
      }
      var updateEffects := IssueAndReply(updates[i], outcomes[i]);
      effects := effects + updateEffects;
    }
    assert updates[..|updates|] == updates && outcomes[..|outcomes|] == outcomes;
  }

  /** An update's id with a missing one counted as 0, as the first run
      does. */
  function IdOrZero(u: Update): int
  {
    if u.updateId.Some? then u.updateId.value else 0
  }

  /** The largest id of a non-empty first-run batch, missing ids counted
      as 0. */
  function MaxOrZero(upds: seq<Update>): (r: int)
    requires upds != []
    ensures forall i :: 0 <= i < |upds| ==> IdOrZero(upds[i]) <= r
    ensures exists i :: 0 <= i < |upds| && IdOrZero(upds[i]) == r
  {
    var n := |upds| - 1;
    if n == 0 then IdOrZero(upds[0])
    else
      var prev := MaxOrZero(upds[..n]);
      assert forall i :: 0 <= i < n ==> upds[..n][i] == upds[i];
      if IdOrZero(upds[n]) > prev then IdOrZero(upds[n]) else prev
  }

  /** The cursor a first run writes: one past the newest update, or 1. */
  function InitCursor(results: seq<Update>): (r: int)
    ensures results == [] ==> r == FIRST_CURSOR
    ensures forall i :: 0 <= i < |results| ==> IdOrZero(results[i]) < r
    ensures results != [] ==> exists i :: 0 <= i < |results| && r == IdOrZero(results[i]) + 1
  {
    if results == [] then FIRST_CURSOR else MaxOrZero(results) + 1
  }

  /** A first run skips history: its cursor is above every update it saw. */
  lemma InitSkipsHistory(results: seq<Update>)
    ensures (forall i :: 0 <= i < |results| && results[i].updateId.Some? ==> results[i].updateId.value >= 0)
      ==> InitCursor(results) >= FIRST_CURSOR
    ensures forall i :: 0 <= i < |results| && results[i].updateId.Some? ==> results[i].updateId.value < InitCursor(results)
  {
    if results != [] {
      assert forall i :: 0 <= i < |results| ==> IdOrZero(results[i]) <= MaxOrZero(results);
      assert IdOrZero(results[0]) <= MaxOrZero(results);
    }
  }

  /** The cursor a later run writes: one past the largest id, or nothing. */
  function NextCursor(results: seq<Update>): (r: Option<int>)
    ensures r.Some? ==> forall i :: 0 <= i < |results| && results[i].updateId.Some? ==> results[i].updateId.value < r.value
    ensures r.None? <==> forall i :: 0 <= i < |results| ==> results[i].updateId.None?
    ensures r.Some? ==> exists i :: 0 <= i < |results| && results[i].updateId == Some(r.value - 1)
  {
    MaxIdSpec(results);
    var m := MaxId(results);
    if m.Some? then Some(m.value + 1) else None
  }

  /** The cursor never moves back: with a batch fetched from offset
      `last` (so no id below it), the new cursor is above `last` and above
      every processed id, so no update is turned into an issue twice. */
  lemma CursorNeverRewinds(last: int, results: seq<Update>)
    requires forall i :: 0 <= i < |results| && results[i].updateId.Some? ==> results[i].updateId.value >= last
    ensures NextCursor(results).Some? ==> NextCursor(results).value > last
  {
    MaxIdSpec(results);
    var m := MaxId(results);
    if m.Some? {
      var i :| 0 <= i < |results| && results[i].updateId == m;
    }
  }

  /** What one fetch returned: an exception (transport error, an HTTP
      error status, or a body that is not JSON), or the decoded body's
      `result`. */
  datatype Fetch = FetchFailed | Fetched(result: Option<seq<Update>>)

  /** The fetched result list; a missing or null result behaves as an empty
      one in both branches of `main`. */
  function Results(f: Fetch): seq<Update>
  {
    if f.Fetched? && f.result.Some? then f.result.value else []
  }

  /** The process exit: normal, or status 2 after "[fatal]". */
  datatype Exit = Finished | Fatal

  /** `main` with its top-level handler. `file` is the cursor file's
      content (None if it cannot be read), `fetch` the single fetch's
      outcome and `outcomes` the issue creations' outcomes. `written` is
      the file's new content, None when it is not written. */
  method PollerMain(file: Option<string>, fetch: Fetch, outcomes: seq<IssueOutcome>)
    returns (params: map<string, int>, effects: seq<Effect>, written: Option<string>, exit: Exit)
    requires fetch.Fetched? ==> |outcomes| == |Results(fetch)|
    ensures params == GetUpdatesParams(ReadLastUpdate(file), MAX_UPDATES, 0)
    ensures fetch.FetchFailed? ==> exit == Fatal && effects == [] && written.None?
    ensures fetch.Fetched? && ReadLastUpdate(file).None? ==>
      exit == Finished && effects == [] && written == Some(WriteLastUpdate(InitCursor(Results(fetch))))
    ensures fetch.Fetched? && ReadLastUpdate(file).Some? ==>
      exit == Finished && effects == AllEffects(Results(fetch), outcomes)
      && written == (var c := NextCursor(Results(fetch)); if c.Some? then Some(WriteLastUpdate(c.value)) else None)
  {
    var last := ReadLastUpdate(file);
    params := GetUpdatesParams(last, MAX_UPDATES, 0);
    effects, written := [], None;
    if fetch.FetchFailed? {
      return params, [], None, Fatal;
    }
    var results := Results(fetch);
    exit := Finished;
    if last.None? {
      if results != [] {
        written := Some(WriteLastUpdate(MaxOrZero(results) + 1));
      } else {
        written := Some(WriteLastUpdate(FIRST_CURSOR));
      }
      return;
    }
    if results == [] {
      return;
    }
    var maxId;
    maxId, effects := ProcessUpdates(results, outcomes);
    if maxId.Some? {
      written := Some(WriteLastUpdate(maxId.value + 1));
    }
  }
}
