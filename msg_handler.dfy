/** Message handling for the chat stream: escaping, command formatting and routing
    of one pub/sub event (chat/msg_handler.py). */
module MsgHandler {
  import opened Text

  // ---------------------------------------------------------------------------
  // html_encode
  // ---------------------------------------------------------------------------

  /** Two global substitutions in sequence: every `<` first, then every `>`. */
  function HtmlEncode(text: string): (r: string)
    ensures '<' !in r && '>' !in r
  {
    ReplaceChar(ReplaceChar(text, '<', "&lt;"), '>', "&gt;")
  }

  /** What a single character becomes in the escaped text. */
  function Entity(c: char): string
  {
    if c == '<' then "&lt;" else if c == '>' then "&gt;" else [c]
  }

  /** Reference escaper: one left-to-right pass, one character at a time. */
  function EscapeEach(s: string): string
  {
    if s == [] then [] else Entity(s[0]) + EscapeEach(s[1..])
  }

  /** The two passes on a single character produce its entity. */
  lemma HtmlEncodeChar(c: char)
    ensures HtmlEncode([c]) == Entity(c)
  {
    assert [c][1..] == [];
    if c == '<' {
      assert ReplaceChar([c], '<', "&lt;") == "&lt;" + ReplaceChar([], '<', "&lt;");
      assert ReplaceChar([c], '<', "&lt;") == "&lt;";
      ReplaceCharAbsent("&lt;", '>', "&gt;");
    } else {
      assert ReplaceChar([c], '<', "&lt;") == [c] + ReplaceChar([], '<', "&lt;");
      assert ReplaceChar([c], '>', "&gt;")
        == (if c == '>' then "&gt;" else [c]) + ReplaceChar([], '>', "&gt;");
    }
  }

  /** The two passes agree with the one-pass escaper: `<` and `>` become their
      four-character entities and every other character stays, in order. */
  lemma {:induction false} HtmlEncodeIsEscapeEach(s: string)
    ensures HtmlEncode(s) == EscapeEach(s)
    decreases |s|
  {
    if s != [] {
      var head, tail := ReplaceChar([s[0]], '<', "&lt;"), ReplaceChar(s[1..], '<', "&lt;");
      assert s == [s[0]] + s[1..];
      ReplaceCharAppend([s[0]], s[1..], '<', "&lt;");
      ReplaceCharAppend(head, tail, '>', "&gt;");
      HtmlEncodeChar(s[0]);
      HtmlEncodeIsEscapeEach(s[1..]);
    }
  }

  lemma {:induction false} EscapeEachAppend(a: string, b: string)
    ensures EscapeEach(a + b) == EscapeEach(a) + EscapeEach(b)
    decreases |a|
  {
    if a == [] {
      assert a + b == b;
    } else {
      assert (a + b)[1..] == a[1..] + b;
      EscapeEachAppend(a[1..], b);
    }
  }

  /** Escaping works piece by piece. */
  lemma HtmlEncodeAppend(a: string, b: string)
    ensures HtmlEncode(a + b) == HtmlEncode(a) + HtmlEncode(b)
  {
    HtmlEncodeIsEscapeEach(a + b);
    HtmlEncodeIsEscapeEach(a);
    HtmlEncodeIsEscapeEach(b);
    EscapeEachAppend(a, b);
  }

  /** Text without `<` or `>` passes through unchanged. */
  lemma HtmlEncodeWithoutMarkup(s: string)
    requires '<' !in s && '>' !in s
    ensures HtmlEncode(s) == s
  {
    ReplaceCharAbsent(s, '<', "&lt;");
    ReplaceCharAbsent(s, '>', "&gt;");
  }

  /** Escaping twice is escaping once. */
  lemma HtmlEncodeIdempotent(s: string)
    ensures HtmlEncode(HtmlEncode(s)) == HtmlEncode(s)
  {
    HtmlEncodeWithoutMarkup(HtmlEncode(s));
  }

  /** Each `<` and `>` grows by three characters; nothing else changes length. */
  lemma {:induction false} HtmlEncodeLength(s: string)
    ensures |HtmlEncode(s)| == |s| + 3 * (multiset(s)['<'] + multiset(s)['>'])
    decreases |s|
  {
    HtmlEncodeIsEscapeEach(s);
    if s != [] {
      assert s == [s[0]] + s[1..];
      assert multiset(s) == multiset([s[0]]) + multiset(s[1..]);
      HtmlEncodeLength(s[1..]);
      HtmlEncodeIsEscapeEach(s[1..]);
    }
  }

  // ---------------------------------------------------------------------------
  // generate_html
  // ---------------------------------------------------------------------------

  datatype Style = Header | Action | Link | Default
  {
    /** The style tag string that generate_html returns. */
    function Tag(): (r: string)
      ensures r in {"header", "action", "link", "default"}
    {
      match this
      case Header => "header"
      case Action => "action"
      case Link => "link"
      case Default => "default"
    }
  }

  /** Each style has its own tag, so the tag alone tells the caller the style. */
  lemma TagsDistinct(a: Style, b: Style)
    ensures a.Tag() == b.Tag() ==> a == b
  {
  }

  datatype Formatted = Formatted(text: string, style: Style)

  /** Large centred text: the user fills the class attribute, right after the
      20-character opening, and the message is the element's content. */
  function HeaderHtml(user: string, message: string): (r: string)
    ensures |r| == |user| + |message| + 73
    ensures r[20..20 + |user|] == user
    ensures r[|r| - 9 - |message|..|r| - 9] == message
  {
    "</br><center class=\"" + user + "\" style=\"font-size:1.5em;font-weight:bold;\">"
      + message + "</center>"
  }

  /** The user in bold, then the message as strong text. */
  function ActionHtml(user: string, message: string): (r: string)
    ensures |r| == |user| + |message| + 26
    ensures r[3..3 + |user|] == user
    ensures r[|r| - 9 - |message|..|r| - 9] == message
  {
    "<b>" + user + "</b>: <strong>" + message + "</strong>"
  }

  /** The user in bold, then a link whose target and visible label are both the message. */
  function LinkHtml(user: string, message: string): (r: string)
    ensures |r| == |user| + 2 * |message| + 40
    ensures r[3..3 + |user|] == user
    ensures r[|user| + 34..|user| + 34 + |message|] == message
    ensures r[|r| - 4 - |message|..|r| - 4] == message
  {
    "<b>" + user + "</b>: <a target=\"_blank\" href=\"" + message + "\">" + message + "</a>"
  }

  /** The user in bold, then the message verbatim to the end. */
  function DefaultHtml(user: string, message: string): (r: string)
    ensures |r| == |user| + |message| + 9
    ensures r[3..3 + |user|] == user
    ensures r[|r| - |message|..] == message
  {
    "<b>" + user + "</b>: " + message
  }

  /** Pick a style by a fixed-length prefix, first match wins, and fill its template. */
  function GenerateHtml(text: string, user: string): (r: Formatted)
    ensures r.style == Header <==> StartsWith(text, "/header")
    ensures r.style == Action <==> !StartsWith(text, "/header") && StartsWith(text, "/act")
    ensures r.style == Link <==>
      !StartsWith(text, "/header") && !StartsWith(text, "/act") && StartsWith(text, "/link")
    ensures r.style == Default <==>
      !StartsWith(text, "/header") && !StartsWith(text, "/act") && !StartsWith(text, "/link")
    ensures r.style == Default ==> r.text == "<b>" + user + "</b>: " + text
  {
    TakeIsPrefixTest(text, "/header");
    TakeIsPrefixTest(text, "/act");
    TakeIsPrefixTest(text, "/link");
    if Take(text, 7) == "/header" then
      Formatted(HeaderHtml(user, Drop(text, 8)), Header)
    else if Take(text, 4) == "/act" then
      Formatted(ActionHtml(user, Drop(text, 5)), Action)
    else if Take(text, 5) == "/link" then
      Formatted(LinkHtml(user, Drop(text, 6)), Link)
    else
      Formatted(DefaultHtml(user, text), Default)
  }

  /** A header command drops its prefix and the one character after it. */
  lemma HeaderCommand(c: char, message: string, user: string)
    ensures GenerateHtml("/header" + [c] + message, user) == Formatted(HeaderHtml(user, message), Header)
  {
    var text := "/header" + [c] + message;
    assert text[..7] == "/header";
    assert text[8..] == message;
  }

  lemma ActionCommand(c: char, message: string, user: string)
    ensures GenerateHtml("/act" + [c] + message, user) == Formatted(ActionHtml(user, message), Action)
  {
    var text := "/act" + [c] + message;
    DiffersAt(text, "/header", 1);
    assert text[..4] == "/act";
    assert text[5..] == message;
  }

  lemma LinkCommand(c: char, url: string, user: string)
    ensures GenerateHtml("/link" + [c] + url, user) == Formatted(LinkHtml(user, url), Link)
  {
    var text := "/link" + [c] + url;
    DiffersAt(text, "/header", 1);
    DiffersAt(text, "/act", 1);
    assert text[..5] == "/link";
    assert text[6..] == url;
  }

  /** A bare command has nothing after the delimiter position: the message is empty. */
  lemma BareCommands(user: string)
    ensures GenerateHtml("/header", user) == Formatted(HeaderHtml(user, ""), Header)
    ensures GenerateHtml("/act", user) == Formatted(ActionHtml(user, ""), Action)
    ensures GenerateHtml("/link", user) == Formatted(LinkHtml(user, ""), Link)
  {
    DiffersAt("/link", "/act", 1);
  }

  /** Matching is by character count, not by word: longer words still match. */
  lemma PrefixesMatchByCount(user: string)
    ensures GenerateHtml("/headerXYZ", user) == Formatted(HeaderHtml(user, "YZ"), Header)
    ensures GenerateHtml("/action", user) == Formatted(ActionHtml(user, "on"), Action)
    ensures GenerateHtml("/linker", user) == Formatted(LinkHtml(user, "r"), Link)
    ensures GenerateHtml("/head", user).style == Default
  {
    assert "/headerXYZ"[..7] == "/header";
    DiffersAt("/action", "/header", 1);
    assert "/action"[..4] == "/act";
    assert "/action"[5..] == "on";
    assert "/linker"[..5] == "/link";
  }

  /** Every fragment starts with markup, so none is the literal "quit". */
  lemma FragmentIsNeverQuit(text: string, user: string)
    ensures |GenerateHtml(text, user).text| > 0 && GenerateHtml(text, user).text[0] == '<'
  {
  }

  // ---------------------------------------------------------------------------
  // handle_message
  // ---------------------------------------------------------------------------

  /** The wire separator between author and body. */
  const Separator: string := "}|{"

  /** An inbound pub/sub event; `kind` is its `type` field, `data` its payload as text. */
  datatype Message = Message(kind: string, data: string)

  /** What handle_message returns: nothing, ("quit", True), (text, mine), or an IndexError. */
  datatype Outcome = Ignore | Quit | Msg(text: string, mine: bool) | Malformed

  /** The quit test on the escaped text: its first five characters are `/quit` and
      everything from index 6 on is the owner. Index 5 is skipped whatever it holds,
      and a bare `/quit` is a quit for an owner with the empty name. */
  predicate QuitsFor(text: string, streamUser: string): (b: bool)
    ensures b <==>
      (|text| >= 6 && text[..5] == "/quit" && text[6..] == streamUser)
      || (text == "/quit" && streamUser == [])
  {
    Take(text, 5) == "/quit" && Drop(text, 6) == streamUser
  }

  function HandleMessage(message: Message, streamUser: string): (r: Outcome)
    ensures r.Ignore? <==> message.kind == "subscribe"
    ensures r.Quit? <==> (message.kind != "subscribe"
      && StartsWith(HtmlEncode(message.data), "/quit") && Drop(HtmlEncode(message.data), 6) == streamUser)
    ensures r.Malformed? <==> (message.kind != "subscribe"
      && !(StartsWith(HtmlEncode(message.data), "/quit") && Drop(HtmlEncode(message.data), 6) == streamUser)
      && !Contains(HtmlEncode(message.data), Separator))
    ensures r.Msg? ==> r.mine == (Split(HtmlEncode(message.data), Separator)[0] == streamUser)
  {
    if message.kind == "subscribe" then Ignore
    else
      var text := HtmlEncode(message.data);
      if QuitsFor(text, streamUser) then Quit
      else
        var sep := Split(text, Separator);
        if |sep| < 2 then Malformed
        else
          var msgUser := sep[0];
          Msg(GenerateHtml(sep[1], msgUser).text, msgUser == streamUser)
  }

  /** On a normal message the author is the escaped text before the first separator
      and the body the text up to the next separator (or the end); the body is
      formatted with the author as user. */
  lemma HandleMessageFields(message: Message, streamUser: string)
    requires HandleMessage(message, streamUser).Msg?
    ensures var text := HtmlEncode(message.data);
      var author := Split(text, Separator)[0];
      var body := Split(text, Separator)[1];
      var n := |author| + |Separator| + |body|;
      text[..|author|] == author && !Contains(author, Separator)
      && OccursAt(text, Separator, |author|)
      && n <= |text| && text[|author| + |Separator|..n] == body && !Contains(body, Separator)
      && (n == |text| || OccursAt(text, Separator, n))
      && HandleMessage(message, streamUser)
         == Msg(GenerateHtml(body, author).text, author == streamUser)
  {
    SplitFirstTwo(HtmlEncode(message.data), Separator);
  }

  lemma SeparatorHasNoSelfOverlap()
    ensures NoSelfOverlap(Separator)
  {
    assert Separator[1..][0] != Separator[..2][0];
    assert Separator[2..][0] != Separator[..1][0];
  }

  /** Escaping leaves the separator alone, so it escapes field by field. */
  lemma HtmlEncodePayload(author: string, body: string)
    ensures HtmlEncode(author + Separator + body) == HtmlEncode(author) + Separator + HtmlEncode(body)
  {
    HtmlEncodeAppend(author + Separator, body);
    HtmlEncodeAppend(author, Separator);
    HtmlEncodeWithoutMarkup(Separator);
  }

  /** Only an author that itself starts with `/quit` can make the payload look like a quit. */
  lemma PayloadNotQuit(a: string, b: string)
    requires !StartsWith(a, "/quit")
    ensures !StartsWith(a + Separator + b, "/quit")
  {
    var text := a + Separator + b;
    if |a| >= 5 {
      assert text[..5] == a[..5];
    } else {
      assert text[|a|] == '}';
      DiffersAt(text, "/quit", |a|);
    }
  }

  /** The escaped payload splits into exactly the two escaped fields. */
  lemma PayloadSplit(author: string, body: string)
    requires !Contains(HtmlEncode(author), Separator) && !Contains(HtmlEncode(body), Separator)
    ensures HtmlEncode(author + Separator + body) == HtmlEncode(author) + Separator + HtmlEncode(body)
    ensures Split(HtmlEncode(author + Separator + body), Separator) == [HtmlEncode(author), HtmlEncode(body)]
  {
    var a, b := HtmlEncode(author), HtmlEncode(body);
    HtmlEncodePayload(author, body);
    SeparatorHasNoSelfOverlap();
    SplitAfterField(a, Separator, b);
    SplitWithout(b, Separator);
  }

  /** A payload built as author + separator + body is taken apart into exactly
      those two fields, escaped. */
  lemma PayloadRoundTrip(kind: string, author: string, body: string, streamUser: string)
    requires kind != "subscribe"
    requires !Contains(HtmlEncode(author), Separator) && !Contains(HtmlEncode(body), Separator)
    requires !StartsWith(HtmlEncode(author), "/quit")
    ensures HandleMessage(Message(kind, author + Separator + body), streamUser)
      == Msg(GenerateHtml(HtmlEncode(body), HtmlEncode(author)).text, HtmlEncode(author) == streamUser)
  {
    PayloadSplit(author, body);
    PayloadNotQuit(HtmlEncode(author), HtmlEncode(body));
  }

  /** On the author's own stream the payload is never a quit: that would need the
      text from index 6 on to be the author, which puts a separator inside it. */
  lemma OwnPayloadNotQuit(a: string, b: string)
    requires !Contains(a, Separator)
    ensures !QuitsFor(a + Separator + b, a)
  {
    var text := a + Separator + b;
    var n := |a|;
    assert text[n..n + 3] == Separator;
    if n < 5 {
      assert text[n] == '}';
      DiffersAt(text, "/quit", n);
    } else if n == 5 {
      assert text[6..][0] == '|';
      assert text[0] == a[0];
    } else {
      assert text[6..][n - 6..n - 3] == Separator;
      assert OccursAt(text[6..], Separator, n - 6);
    }
  }

  /** A message whose author has no markup is reported as the owner's own. */
  lemma OwnMessageIsMine(kind: string, author: string, body: string)
    requires kind != "subscribe"
    requires '<' !in author && '>' !in author
    requires !Contains(author, Separator) && !Contains(HtmlEncode(body), Separator)
    ensures HandleMessage(Message(kind, author + Separator + body), author)
      == Msg(GenerateHtml(HtmlEncode(body), author).text, true)
  {
    HtmlEncodeWithoutMarkup(author);
    PayloadSplit(author, body);
    OwnPayloadNotQuit(author, HtmlEncode(body));
  }

  /** Whatever the body holds, a message from a markup-free author on their own
      stream is theirs; only the body's escaped text up to its first separator
      is formatted. */
  lemma OwnMessageAnyBody(kind: string, author: string, body: string)
    requires kind != "subscribe"
    requires '<' !in author && '>' !in author
    requires !Contains(author, Separator)
    ensures HandleMessage(Message(kind, author + Separator + body), author)
      == Msg(GenerateHtml(Split(HtmlEncode(body), Separator)[0], author).text, true)
  {
    HtmlEncodeWithoutMarkup(author);
    HtmlEncodePayload(author, body);
    SeparatorHasNoSelfOverlap();
    SplitAfterField(author, Separator, HtmlEncode(body));
    OwnPayloadNotQuit(author, HtmlEncode(body));
  }

  /** The owner's quit command, `/quit` then any one character then the owner's
      name, closes the stream when the name has no markup. */
  lemma QuitCommand(kind: string, c: char, streamUser: string)
    requires kind != "subscribe" && c != '<' && c != '>'
    requires '<' !in streamUser && '>' !in streamUser
    ensures HandleMessage(Message(kind, "/quit" + [c] + streamUser), streamUser) == Quit
  {
    var data := "/quit" + [c] + streamUser;
    HtmlEncodeWithoutMarkup(data);
    assert data[..5] == "/quit";
    assert data[6..] == streamUser;
  }

  /** Author and quit target are compared after escaping with the unescaped owner
      name, so an owner whose name holds `<` or `>` can neither quit nor own a message. */
  lemma MarkupOwnerNeverMatches(message: Message, streamUser: string)
    requires '<' in streamUser || '>' in streamUser
    ensures !HandleMessage(message, streamUser).Quit?
    ensures HandleMessage(message, streamUser).Msg? ==> !HandleMessage(message, streamUser).mine
  {
    var text := HtmlEncode(message.data);
    if HandleMessage(message, streamUser).Msg? {
      SplitHead(text, Separator);
      var author := Split(text, Separator)[0];
      assert forall x :: x in author ==> x in text;
    }
  }

  /** A quit command for someone else falls through to the split and, lacking a
      separator, is malformed. */
  lemma NearMissQuitIsMalformed(kind: string, data: string, streamUser: string)
    requires kind != "subscribe"
    requires StartsWith(HtmlEncode(data), "/quit") && Drop(HtmlEncode(data), 6) != streamUser
    requires !Contains(HtmlEncode(data), Separator)
    ensures HandleMessage(Message(kind, data), streamUser) == Malformed
  {
  }

  /** Subscription events are ignored whatever they carry. */
  lemma SubscribeIgnored(data: string, streamUser: string)
    ensures HandleMessage(Message("subscribe", data), streamUser) == Ignore
  {
  }

  /** A sample plain message. */
  lemma SampleDefault()
    ensures GenerateHtml("hello", "alice") == Formatted("<b>alice</b>: hello", Default)
  {
    DiffersAt("hello", "/header", 0);
    DiffersAt("hello", "/act", 0);
    DiffersAt("hello", "/link", 0);
    assert GenerateHtml("hello", "alice") == Formatted(DefaultHtml("alice", "hello"), Default);
    assert DefaultHtml("alice", "hello") == "<b>alice</b>: hello";
  }

  /** A sample quit event. */
  lemma SampleQuit()
    ensures HandleMessage(Message("message", "/quit alice"), "alice") == Quit
  {
    assert "/quit" + [' '] + "alice" == "/quit alice";
    QuitCommand("message", ' ', "alice");
  }
}
