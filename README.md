# flask-chat message handling, in Dafny

This project models `chat/msg_handler.py`, the message-handling logic of a
broadcast chat stream. The file has three pure functions:

- `html_encode` escapes the two HTML metacharacters `<` and `>`.
- `generate_html` picks one of four presentation styles from a fixed-length
  command prefix (`/header`, `/act`, `/link`, or none) and fills that style's
  HTML template.
- `handle_message` routes one pub/sub event. It ignores subscription events,
  escapes the payload, recognises the stream owner's `/quit`, and otherwise
  splits the payload `author}|{body` and formats the body. It also reports
  whether the author is the stream owner, so that only one stream stores the
  message.

All three are modelled as Dafny functions over `string`, with lemmas. They live
in module `MsgHandler` (`msg_handler.dfy`). Module `Text` (`text.dfy`) gives
the Python string operations they rely on, with Python's semantics:

- `Take`/`Drop` are slices that clamp at the end of the string (`text[0:7]`, `text[8:]`).
- `ReplaceChar` is `str.replace` with a one-character pattern.
- `Find` is the first-occurrence search that `str.split` performs (Python's
  `str.find`, with `None` for -1).
- `Split` is `str.split`, cutting at every occurrence of the separator.
- `Join` is `str.join`, used only to state that splitting loses nothing.

The outcome of `handle_message` is the datatype `Outcome`:

- `Ignore` stands for the bare `return` (Python `None`).
- `Quit` stands for `("quit", True)`.
- `Msg(text, mine)` stands for `(text, mine)`.
- `Malformed` stands for the `IndexError` that `sep[1]` raises when the escaped
  payload has no `}|{`.

`FragmentIsNeverQuit` shows that every formatted fragment starts with `<`, so
the Python tuple `("quit", True)` cannot be confused with a message result.

Two consequences of the code worth knowing:

- `sep[1]` is the text between the first and the second `}|{`; any later
  pieces are dropped (`HandleMessageFields`).
- The author and the quit target are compared after escaping, against the
  unescaped owner name. A message `A}|{B` on A's own stream is therefore
  reported as mine whenever A has no `}|{`, `<` or `>`, whatever B holds
  (`OwnMessageAnyBody`).
  An owner whose name contains `<` or `>` can never quit and never owns a
  message (`MarkupOwnerNeverMatches`).

## Model

| member | source | states |
|---|---|---|
| `Text.Take` | chat/msg_handler.py:40-50 | `s[0:n]` is a prefix of `s` of length `n`, or all of `s` when `n` is past the end (the slices `text[0:7]`, `text[0:4]`, `text[0:5]` at lines 40, 45, 50 and 97) |
| `Text.Drop` | chat/msg_handler.py:42 | `s[n:]` is whatever follows the clamped prefix `s[:n]`; the two together give back `s`, and past the end it is empty |
| `Text.TakeIsPrefixTest` | chat/msg_handler.py:40 | comparing the clamped slice `text[0:len(p)]` with a literal `p` is the same as testing that `text` starts with `p` |
| `Text.Find` | chat/msg_handler.py:102 | the first-occurrence search inside `split` at line 102: the position found is an occurrence of the pattern and no earlier position is one; nothing is found exactly when the pattern does not occur |
| `Text.Split` | chat/msg_handler.py:102 | `split` gives at least one piece, gives two or more exactly when the separator occurs, and no piece contains the separator |
| `Text.JoinSplit` | chat/msg_handler.py:102 | joining the pieces of a split with the separator gives back the original string |
| `Text.SplitFirstTwo` | chat/msg_handler.py:102-104 | `sep[0]` is the text before the first separator; `sep[1]` is the text after it, up to the next separator or the end |
| `Text.SplitAfterField` | chat/msg_handler.py:102-104 | for a separator that cannot overlap itself, `a + sep + t` with `a` free of separators splits into `a` followed by the pieces of `t` |
| `Text.ReplaceChar` | chat/msg_handler.py:10 | `replace` of one character removes it when the replacement lacks it, keeps every other character of the input, and adds only characters of the input or of the replacement |
| `Text.ReplaceCharAbsent` | chat/msg_handler.py:10 | replacing a character that does not occur leaves the text unchanged |
| `MsgHandler.HtmlEncode` | chat/msg_handler.py:8-10 | escaped text contains no `<` and no `>`, for every input |
| `MsgHandler.HtmlEncodeIsEscapeEach` | chat/msg_handler.py:10 | the two passes equal a one-pass escape: the output is the input with each `<` turned into `&lt;` and each `>` into `&gt;`, every other character unchanged and in order |
| `MsgHandler.HtmlEncodeAppend` | chat/msg_handler.py:10 | escaping a concatenation is the concatenation of the escaped parts |
| `MsgHandler.HtmlEncodeWithoutMarkup` | chat/msg_handler.py:10 | text with no `<` or `>` is returned unchanged |
| `MsgHandler.HtmlEncodeIdempotent` | chat/msg_handler.py:10 | escaping twice gives the same text as escaping once |
| `MsgHandler.HtmlEncodeLength` | chat/msg_handler.py:10 | the output is longer than the input by exactly three characters per `<` or `>` |
| `MsgHandler.Style.Tag` | chat/msg_handler.py:41-56 | the style tag is one of the four strings `header`, `action`, `link`, `default` |
| `MsgHandler.TagsDistinct` | chat/msg_handler.py:41-56 | different styles have different tags, so the returned tag identifies the branch taken |
| `MsgHandler.HeaderHtml` | chat/msg_handler.py:42 | the header template: its only user slot is the `class` attribute, right after the 20-character opening; the message is the element content before the closing 9 characters `</center>`; the fixed text totals 73 characters |
| `MsgHandler.ActionHtml` | chat/msg_handler.py:47 | the action template: the user right after `<b>`, the message right before `</strong>`, and 26 fixed characters |
| `MsgHandler.LinkHtml` | chat/msg_handler.py:52 | the link template: the user right after `<b>`, the message once as the `href` value and once as the visible text before `</a>`, and 40 fixed characters |
| `MsgHandler.DefaultHtml` | chat/msg_handler.py:57 | the default template: the user right after `<b>`, the message verbatim at the end, and 9 fixed characters |
| `MsgHandler.GenerateHtml` | chat/msg_handler.py:37-59 | exactly one style, chosen in order by fixed-length prefix: header iff the text starts with `/header`, action iff not and it starts with `/act`, link iff neither and it starts with `/link`, default otherwise; the default output is `<b>user</b>: ` followed by the unmodified text |
| `MsgHandler.HeaderCommand` | chat/msg_handler.py:40-42 | `/header`, then any one character, then a message formats as the header template with exactly that message, whose only user slot is the `class` attribute |
| `MsgHandler.ActionCommand` | chat/msg_handler.py:45-47 | `/act`, then any one character, then a message formats as the bold-user, strong-message template with exactly that message |
| `MsgHandler.LinkCommand` | chat/msg_handler.py:50-52 | `/link`, then any one character, then a URL formats as the link template, with that same URL as both the `href` and the visible text |
| `MsgHandler.BareCommands` | chat/msg_handler.py:40-52 | a bare `/header`, `/act` or `/link` takes its branch with an empty message, because the slice clamps |
| `MsgHandler.PrefixesMatchByCount` | chat/msg_handler.py:40-52 | matching counts characters, not words: `/headerXYZ` is a header with message `YZ`, `/action` an action with message `on`, `/linker` a link to `r`; `/head` is a default message |
| `MsgHandler.SampleDefault` | chat/msg_handler.py:55-57 | the plain message `hello` from `alice` formats as `<b>alice</b>: hello` in the default style |
| `MsgHandler.FragmentIsNeverQuit` | chat/msg_handler.py:42-57 | every formatted fragment is non-empty and starts with `<`, so it can never be the quit marker `"quit"` |
| `MsgHandler.QuitsFor` | chat/msg_handler.py:97-98 | the nested quit test on clamped slices holds exactly when the text is `/quit`, any one character, then the owner's name, or is a bare `/quit` and the owner's name is empty |
| `MsgHandler.HandleMessage` | chat/msg_handler.py:62-113 | ignored iff the type is `subscribe`; quit iff not and the escaped text starts with `/quit` and its part from index 6 is the stream owner; malformed iff neither and the escaped text has no separator; on a message, mine iff the author piece equals the owner |
| `MsgHandler.HandleMessageFields` | chat/msg_handler.py:101-113 | on a normal message, the author is the escaped text before the first separator, the body runs from there to the next separator or the end, neither contains a separator, and the result is the body formatted with that author, mine iff the author equals the owner |
| `MsgHandler.HtmlEncodePayload` | chat/msg_handler.py:94 | escaping `author + separator + body` escapes the two fields and leaves the separator in place |
| `MsgHandler.PayloadSplit` | chat/msg_handler.py:94-104 | when neither escaped field holds a separator, the escaped payload `author + separator + body` splits into exactly the two escaped fields |
| `MsgHandler.PayloadRoundTrip` | chat/msg_handler.py:91-113 | a payload `author + separator + body` (escaped fields free of separators, author not starting with `/quit`) gives the escaped body formatted with the escaped author, mine iff the escaped author is the owner |
| `MsgHandler.OwnPayloadNotQuit` | chat/msg_handler.py:97-99 | a payload `author + separator + body` with a separator-free author never passes the quit test on the author's own stream |
| `MsgHandler.OwnMessageIsMine` | chat/msg_handler.py:91-113 | a message from any author without `<`, `>` or a separator (including names such as `/quitter`), whose escaped body holds no separator, received on that author's own stream, is reported as mine with its escaped body formatted under that author |
| `MsgHandler.OwnMessageAnyBody` | chat/msg_handler.py:91-113 | for every body, a message from an author without `<`, `>` or a separator, received on that author's own stream, is reported as mine, and what is formatted is the escaped body up to its first separator |
| `MsgHandler.QuitCommand` | chat/msg_handler.py:97-99 | `/quit`, any one character, then the owner's name (all free of `<` and `>`) closes the owner's stream |
| `MsgHandler.SampleQuit` | chat/msg_handler.py:97-99 | the event `/quit alice` on alice's stream gives the quit result |
| `MsgHandler.NearMissQuitIsMalformed` | chat/msg_handler.py:97-104 | a `/quit` whose target is not the owner falls through to the split and, without a separator, ends as the split failure |
| `MsgHandler.MarkupOwnerNeverMatches` | chat/msg_handler.py:94-110 | an owner name containing `<` or `>` is never matched, because the comparisons use the escaped text: no quit, and no message counts as mine |
| `MsgHandler.SubscribeIgnored` | chat/msg_handler.py:87-88 | a subscription event is ignored whatever its data |

## Left out

- The `str()` conversion of `message['data']` (line 91): `data` is modelled as already a string, because Python's conversion of arbitrary objects to text is outside this file.
- The dictionary `message` is modelled as the record `Message(kind, data)`: only its `type` and `data` keys are read. A missing key (a `KeyError`) is not modelled.
- The Redis list, pub/sub transport and stream management that the comment at lines 77-84 mentions are not part of this file and are not modelled.
- Whether the HTML renders, and whether a link target is a well-formed URL (lines 30-35): the code does not check either.
- The unused `re` import (line 6).
- The style tag that `handle_message` discards at line 107: it is stated only for `GenerateHtml`.
