/** `api/telegram-bot-example.js`: the per-chat dialogue that collects a
    title, a body, tags and an excerpt and then asks the API server to
    create a draft.

    The bot's `userStates` map is a map from chat id to the draft collected
    so far. Sending a message to the chat and the HTTP call become outputs:
    a handled message yields the request to submit, if any. A message
    reaches the message handler and every command pattern it matches;
    `Receive` puts the two together. */
module Bot {
  import opened Options
  import opened Strings
  import opened Cli
  import opened Server

  datatype Step = AwaitTitle | AwaitContent | AwaitTags | AwaitExcerpt

  /** `{ step, title, content, tags }`; a field not collected yet is None. */
  datatype Draft = Draft(step: Step, title: Option<string>, content: Option<string>, tags: Option<seq<string>>)

  type Chats = map<int, Draft>

  /** What handling a message asks of the API server. `Crashed` is an
      exception thrown in the handler: the rejected promise is not handled,
      the process stops, and every draft in memory is lost. */
  datatype Effect = Nothing | Submit(request: CreateRequest) | Crashed

  /** The handler of `/new_article`: a fresh draft, whatever was there. */
  function NewArticle(chats: Chats, chat: int): (r: Chats)
    ensures chat in r && r[chat] == Draft(AwaitTitle, None, None, None)
    ensures forall c | c != chat :: (c in r <==> c in chats) && (c in chats ==> r[c] == chats[c])
  {
    chats[chat := Draft(AwaitTitle, None, None, None)]
  }

  /** The body as stored: wrapped in a paragraph unless, once trimmed, it
      already starts with a tag. */
  function WrapContent(text: string): (r: string)
    ensures r == text <==> StartsWith(Trim(text), "<")
    ensures StartsWith(Trim(r), "<")
  {
    if StartsWith(Trim(text), "<") then text
    else
      Wrapped(text);
      "<p>" + text + "</p>"
  }

  /** A paragraph-wrapped text is new and, trimmed, starts with a tag. */
  lemma Wrapped(text: string)
    ensures "<p>" + text + "</p>" != text
    ensures StartsWith(Trim("<p>" + text + "</p>"), "<")
  {
    var r := "<p>" + text + "</p>";
    assert |r| == |text| + 7;
    assert r[0] == '<' && !IsSpace(r[0]);
    TrimKeepsHead(r);
    assert Trim(r)[..1] == [Trim(r)[0]];
  }

  /** Wrapping twice is wrapping once. */
  lemma WrapContentIdempotent(text: string)
    ensures WrapContent(WrapContent(text)) == WrapContent(text)
  {
  }

  /** `text && text !== '/skip'`. */
  predicate Given(text: Option<string>) {
    text.Some? && text.value != "" && text.value != "/skip"
  }

  /** The request `createArticle(title, content, tags, excerpt, 'draft')`
      posts; undefined fields are left out of the JSON body. */
  function SubmitRequest(d: Draft, excerpt: string): CreateRequest {
    CreateRequest(
      title := d.title,
      date := None,
      tags := Some(d.tags.GetOr([])),
      excerpt := Some(excerpt),
      content := d.content,
      status := Some("draft"),
      readTime := None,
      icon := None)
  }

  /** No chat keeps a draft. */
  const Lost: Chats := map[]

  /** The `switch (state.step)` of the message handler, for a chat with a
      draft. A message without text at the content step makes `trim`
      throw; the process stops and the drafts of all chats are lost. */
  function Advance(chats: Chats, chat: int, text: Option<string>): (r: (Chats, Effect))
    requires chat in chats
    ensures r.1 == Crashed <==> chats[chat].step == AwaitContent && text.None?
    ensures r.1 == Crashed ==> r.0 == Lost
    ensures r.1 != Crashed ==> forall c | c != chat :: (c in r.0 <==> c in chats) && (c in chats ==> r.0[c] == chats[c])
    ensures r.1.Submit? <==> chats[chat].step == AwaitExcerpt
    ensures r.1.Submit? ==> chat !in r.0 && r.1.request.status == Some("draft")
    ensures chats[chat].step != AwaitExcerpt && r.1 != Crashed ==> chat in r.0
    ensures chats[chat].step == AwaitTitle ==> r.0[chat] == Draft(AwaitContent, text, None, None)
    ensures chats[chat].step == AwaitContent && text.Some? ==>
      r.0[chat] == chats[chat].(step := AwaitTags, content := Some(WrapContent(text.value)))
    ensures chats[chat].step == AwaitTags ==>
      r.0[chat] == chats[chat].(step := AwaitExcerpt, tags := Some(if Given(text) then ParseTags(text.value) else []))
  {
    var d := chats[chat];
    match d.step
    case AwaitTitle => (chats[chat := Draft(AwaitContent, text, None, None)], Nothing)
    case AwaitContent =>
      if text.None? then (Lost, Crashed)
      else (chats[chat := d.(step := AwaitTags, content := Some(WrapContent(text.value)))], Nothing)
    case AwaitTags =>
      var tags := if Given(text) then ParseTags(text.value) else [];
      (chats[chat := d.(step := AwaitExcerpt, tags := Some(tags))], Nothing)
    case AwaitExcerpt =>
      var excerpt := if Given(text) then Trim(text.value) else "";
      (chats - {chat}, Submit(SubmitRequest(d, excerpt)))
  }

  /** `bot.on('message')`: commands are skipped, chats without a draft are
      ignored, any other text advances the draft. */
  function OnMessage(chats: Chats, chat: int, text: Option<string>): (r: (Chats, Effect))
    ensures text.Some? && StartsWith(text.value, "/") ==> r == (chats, Nothing)
    ensures chat !in chats ==> r == (chats, Nothing)
    ensures r.1 == Crashed <==> text.None? && chat in chats && chats[chat].step == AwaitContent
    ensures r.1 != Crashed ==> forall c | c != chat :: (c in r.0 <==> c in chats) && (c in chats ==> r.0[c] == chats[c])
  {
    if text.Some? && StartsWith(text.value, "/") then (chats, Nothing)
    else if chat !in chats then (chats, Nothing)
    else Advance(chats, chat, text)
  }

  /** `/\/new_article/` is not anchored: it matches any text holding
      `/new_article`, wherever it occurs. */
  predicate MentionsNewArticle(text: Option<string>) {
    text.Some? && Contains(text.value, "/new_article")
  }

  /** One incoming message, through every handler it reaches: the message
      handler first, then the `/new_article` handler when the text holds
      that command anywhere. At the excerpt step the message handler
      forgets the chat only after the server replies, so the fresh draft
      the command made in the meantime is forgotten too. */
  function Receive(chats: Chats, chat: int, text: Option<string>): (r: (Chats, Effect))
    ensures !MentionsNewArticle(text) ==> r == OnMessage(chats, chat, text)
    ensures MentionsNewArticle(text) && !(chat in chats && chats[chat].step == AwaitExcerpt && !StartsWith(text.value, "/")) ==>
      r == (NewArticle(OnMessage(chats, chat, text).0, chat), Nothing)
    ensures MentionsNewArticle(text) && chat in chats && chats[chat].step == AwaitExcerpt && !StartsWith(text.value, "/") ==>
      chat !in r.0 && r.1.Submit?
    ensures r.1 != Crashed ==> forall c | c != chat :: (c in r.0 <==> c in chats) && (c in chats ==> r.0[c] == chats[c])
  {
    var (after, effect) := OnMessage(chats, chat, text);
    if MentionsNewArticle(text) && !effect.Submit? then (NewArticle(after, chat), effect)
    else (after, effect)
  }

  /** The command itself starts a fresh draft, whatever the chat held. */
  lemma CommandStartsDraft(chats: Chats, chat: int)
    ensures Receive(chats, chat, Some("/new_article")) == (NewArticle(chats, chat), Nothing)
  {
    var t := "/new_article";
    assert StartsWith(t[0..], t);
    ContainsAt(t, t, 0);
    assert StartsWith(t, "/");
  }

  /** A plain message that mentions the command, sent while the dialogue
      waits for a title, a body or tags, is stored and then thrown away:
      the chat is back at the title step. */
  lemma MentionRestarts(chats: Chats, chat: int, text: string)
    requires chat in chats && chats[chat].step != AwaitExcerpt
    requires Contains(text, "/new_article") && !StartsWith(text, "/")
    ensures Receive(chats, chat, Some(text)) == (chats[chat := Draft(AwaitTitle, None, None, None)], Nothing)
  {
    var d := chats[chat];
    if d.step == AwaitTitle {
      TitleStep(chats, chat, text);
      RestartAfterStore(chats, chat, text, Draft(AwaitContent, Some(text), None, None));
    } else if d.step == AwaitContent {
      ContentStep(chats, chat, text);
      RestartAfterStore(chats, chat, text, d.(step := AwaitTags, content := Some(WrapContent(text))));
    } else {
      TagsStep(chats, chat, text);
      RestartAfterStore(chats, chat, text, d.(step := AwaitExcerpt, tags := Some(ParseTags(text))));
    }
  }

  /** What the message handler stored is overwritten by the fresh draft. */
  lemma RestartAfterStore(chats: Chats, chat: int, text: string, stored: Draft)
    requires Contains(text, "/new_article")
    requires OnMessage(chats, chat, Some(text)) == (chats[chat := stored], Nothing)
    ensures Receive(chats, chat, Some(text)) == (chats[chat := Draft(AwaitTitle, None, None, None)], Nothing)
  {
    var restart := Draft(AwaitTitle, None, None, None);
    assert chats[chat := stored][chat := restart] == chats[chat := restart];
  }

  /** A plain message to a chat with a draft is handed to the step switch. */
  lemma PlainMessageAdvances(chats: Chats, chat: int, text: string)
    requires chat in chats && !StartsWith(text, "/")
    ensures OnMessage(chats, chat, Some(text)) == Advance(chats, chat, Some(text))
  {
  }

  /** The tags a plain message gives: `/skip` and the empty text give none. */
  lemma PlainTags(text: string)
    requires !StartsWith(text, "/")
    ensures (if Given(Some(text)) then ParseTags(text) else []) == ParseTags(text)
  {
    if text == "" {
      ParseTagsEmpty();
    } else {
      assert text != "/skip" by {
        assert StartsWith("/skip", "/");
      }
    }
  }

  /** The excerpt a plain message gives is the trimmed text. */
  lemma PlainExcerpt(text: string)
    requires !StartsWith(text, "/")
    ensures (if Given(Some(text)) then Trim(text) else "") == Trim(text)
  {
    if text == "" {
      assert Trim(text) == "";
    } else {
      assert text != "/skip" by {
        assert StartsWith("/skip", "/");
      }
    }
  }

  /** A plain message at the title step stores the title. */
  lemma TitleStep(chats: Chats, chat: int, text: string)
    requires chat in chats && chats[chat].step == AwaitTitle && !StartsWith(text, "/")
    ensures OnMessage(chats, chat, Some(text)) == (chats[chat := Draft(AwaitContent, Some(text), None, None)], Nothing)
  {
    PlainMessageAdvances(chats, chat, text);
  }

  /** A plain message at the content step stores the wrapped body. */
  lemma ContentStep(chats: Chats, chat: int, text: string)
    requires chat in chats && chats[chat].step == AwaitContent && !StartsWith(text, "/")
    ensures OnMessage(chats, chat, Some(text)) ==
      (chats[chat := chats[chat].(step := AwaitTags, content := Some(WrapContent(text)))], Nothing)
  {
    PlainMessageAdvances(chats, chat, text);
  }

  /** A plain message at the tags step stores the parsed tags. */
  lemma TagsStep(chats: Chats, chat: int, text: string)
    requires chat in chats && chats[chat].step == AwaitTags && !StartsWith(text, "/")
    ensures OnMessage(chats, chat, Some(text)) ==
      (chats[chat := chats[chat].(step := AwaitExcerpt, tags := Some(ParseTags(text)))], Nothing)
  {
    PlainMessageAdvances(chats, chat, text);
    PlainTags(text);
  }

  /** A plain message at the excerpt step ends the dialogue and submits
      the draft with the trimmed excerpt. */
  lemma ExcerptStep(chats: Chats, chat: int, text: string)
    requires chat in chats && chats[chat].step == AwaitExcerpt && !StartsWith(text, "/")
    ensures OnMessage(chats, chat, Some(text)) == (chats - {chat}, Submit(SubmitRequest(chats[chat], Trim(text))))
  {
    PlainMessageAdvances(chats, chat, text);
    PlainExcerpt(text);
  }

  /** The first two plain messages after `/new_article` fill in the title
      and the wrapped body. */
  lemma DialogueStart(chats: Chats, chat: int, title: string, body: string)
    requires !StartsWith(title, "/") && !StartsWith(body, "/")
    ensures
      var c1 := OnMessage(NewArticle(chats, chat), chat, Some(title));
      var c2 := OnMessage(c1.0, chat, Some(body));
      && c1.1 == Nothing && c2.1 == Nothing && chat in c2.0
      && c2.0[chat] == Draft(AwaitTags, Some(title), Some(WrapContent(body)), None)
  {
    var c0 := NewArticle(chats, chat);
    TitleStep(c0, chat, title);
    var c1 := c0[chat := Draft(AwaitContent, Some(title), None, None)];
    ContentStep(c1, chat, body);
  }

  /** The last two plain messages fill in the tags and end the dialogue
      with the request. */
  lemma DialogueEnd(chats: Chats, chat: int, tags: string, excerpt: string)
    requires chat in chats && chats[chat].step == AwaitTags
    requires !StartsWith(tags, "/") && !StartsWith(excerpt, "/")
    ensures
      var c3 := OnMessage(chats, chat, Some(tags));
      var c4 := OnMessage(c3.0, chat, Some(excerpt));
      && c3.1 == Nothing && chat !in c4.0
      && c4.1 == Submit(SubmitRequest(chats[chat].(step := AwaitExcerpt, tags := Some(ParseTags(tags))), Trim(excerpt)))
  {
    TagsStep(chats, chat, tags);
    var c3 := chats[chat := chats[chat].(step := AwaitExcerpt, tags := Some(ParseTags(tags)))];
    ExcerptStep(c3, chat, excerpt);
  }

  /** `/new_article` followed by four plain messages, none of which
      mentions the command, submits exactly what was typed, tidied, and
      ends the dialogue. */
  lemma Dialogue(chats: Chats, chat: int, title: string, body: string, tags: string, excerpt: string)
    requires !StartsWith(title, "/") && !StartsWith(body, "/") && !StartsWith(tags, "/") && !StartsWith(excerpt, "/")
    requires !Contains(title, "/new_article") && !Contains(body, "/new_article")
    requires !Contains(tags, "/new_article") && !Contains(excerpt, "/new_article")
    ensures
      var c0 := Receive(chats, chat, Some("/new_article"));
      var c1 := Receive(c0.0, chat, Some(title));
      var c2 := Receive(c1.0, chat, Some(body));
      var c3 := Receive(c2.0, chat, Some(tags));
      var c4 := Receive(c3.0, chat, Some(excerpt));
      && c0.1 == Nothing && c1.1 == Nothing && c2.1 == Nothing && c3.1 == Nothing
      && chat !in c4.0
      && c4.1 == Submit(SubmitRequest(Draft(AwaitExcerpt, Some(title), Some(WrapContent(body)), Some(ParseTags(tags))), Trim(excerpt)))
  {
    CommandStartsDraft(chats, chat);
    var c0 := NewArticle(chats, chat);
    DialogueStart(chats, chat, title, body);
    UnmentionedIsPlain(c0, chat, title);
    var c1 := OnMessage(c0, chat, Some(title)).0;
    UnmentionedIsPlain(c1, chat, body);
    var c2 := OnMessage(c1, chat, Some(body)).0;
    DialogueEnd(c2, chat, tags, excerpt);
    UnmentionedIsPlain(c2, chat, tags);
    var c3 := OnMessage(c2, chat, Some(tags)).0;
    UnmentionedIsPlain(c3, chat, excerpt);
  }

  lemma UnmentionedIsPlain(chats: Chats, chat: int, text: string)
    requires !Contains(text, "/new_article")
    ensures Receive(chats, chat, Some(text)) == OnMessage(chats, chat, Some(text))
  {
  }

  /** A draft the server accepts from the bot is stored with status
      'draft' and the wrapped body. */
  lemma BotCreatesDrafts(env: Env, st: Store, d: Draft, excerpt: string)
    requires d.content.Some? && d.content.value != ""
    requires Create(env, st, SubmitRequest(d, excerpt)).1.Ok?
    ensures Create(env, st, SubmitRequest(d, excerpt)).1.value.status == "draft"
    ensures Create(env, st, SubmitRequest(d, excerpt)).1.value.content == d.content
  {
  }

  /** The handler as written: `/skip` starts with '/', so it is dropped
      before the step switch and a chat waiting for tags stays there. */
  lemma SkipIsIgnored(chats: Chats, chat: int)
    requires chat in chats && chats[chat].step in {AwaitTags, AwaitExcerpt}
    ensures OnMessage(chats, chat, Some("/skip")) == (chats, Nothing)
  {
    assert StartsWith("/skip", "/");
  }

  /** The handler as evidently intended: commands are skipped except
      `/skip`, which the tags and excerpt steps handle. */
  function OnMessageWithSkip(chats: Chats, chat: int, text: Option<string>): (r: (Chats, Effect))
    ensures text.Some? && StartsWith(text.value, "/") && text.value != "/skip" ==> r == (chats, Nothing)
    ensures chat !in chats ==> r == (chats, Nothing)
    ensures r.1 == Crashed <==> text.None? && chat in chats && chats[chat].step == AwaitContent
    ensures r.1 != Crashed ==> forall c | c != chat :: (c in r.0 <==> c in chats) && (c in chats ==> r.0[c] == chats[c])
  {
    if text.Some? && StartsWith(text.value, "/") && text.value != "/skip" then (chats, Nothing)
    else if chat !in chats then (chats, Nothing)
    else Advance(chats, chat, text)
  }

  /** With `/skip` let through, it moves past the tags step with no tags
      and ends the dialogue with an empty excerpt. */
  lemma SkipSkips(chats: Chats, chat: int)
    requires chat in chats
    ensures chats[chat].step == AwaitTags ==>
      OnMessageWithSkip(chats, chat, Some("/skip")).0[chat] == chats[chat].(step := AwaitExcerpt, tags := Some([]))
    ensures chats[chat].step == AwaitExcerpt ==>
      chat !in OnMessageWithSkip(chats, chat, Some("/skip")).0 &&
      OnMessageWithSkip(chats, chat, Some("/skip")).1 == Submit(SubmitRequest(chats[chat], ""))
  {
  }

  /** Apart from `/skip`, the intended handler is the one written. */
  lemma SkipFixChangesOnlySkip(chats: Chats, chat: int, text: Option<string>)
    requires text != Some("/skip")
    ensures OnMessageWithSkip(chats, chat, text) == OnMessage(chats, chat, text)
  {
  }
}
